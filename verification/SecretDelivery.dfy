/**
 * Delivery of secret messages (src/routes/secret.ts): durable rows, the Redis index over them, and pulls that
 * interleave.
 */
module SecretDelivery {
  import opened Aead
  import opened Bytes
  import opened Text
  import opened SecretInbox

  // ---------------------------------------------------------------- what a pull answers

  /** A message as a client receives it. */
  datatype Message = Message(msgId: Id, payload: Id)

  /** An id can be served from the cache, or else from this device's delivery row. */
  function Resolve(cached: Option<Id>, row: Option<Id>): Option<Id> {
    if cached.Some? then cached else row
  }

  function RowOf(rows: map<Id, Id>, msgId: Id): Option<Id> {
    if msgId in rows then Some(rows[msgId]) else None
  }

  /** The messages served, in inbox order. */
  function Served(ids: seq<Id>, cached: seq<Option<Id>>, rows: map<Id, Id>): seq<Message>
    requires |cached| == |ids|
  {
    if ids == [] then []
    else
      var n := |ids| - 1;
      var r := Resolve(cached[n], RowOf(rows, ids[n]));
      Served(ids[..n], cached[..n], rows) + if r.Some? then [Message(ids[n], r.value)] else []
  }

  /** The ids that can never be served again. */
  function Dead(ids: seq<Id>, cached: seq<Option<Id>>, rows: map<Id, Id>): (dead: seq<Id>)
    requires |cached| == |ids|
    ensures |dead| <= |ids|
  {
    if ids == [] then []
    else
      var n := |ids| - 1;
      var r := Resolve(cached[n], RowOf(rows, ids[n]));
      Dead(ids[..n], cached[..n], rows) + if r.Some? then [] else [ids[n]]
  }

  /** The ids that are not in the cache. */
  function Missing(ids: seq<Id>, cached: seq<Option<Id>>): seq<Id>
    requires |cached| == |ids|
  {
    if ids == [] then []
    else
      var n := |ids| - 1;
      Missing(ids[..n], cached[..n]) + if cached[n].None? then [ids[n]] else []
  }

  lemma AnswerStep(ids: seq<Id>, cached: seq<Option<Id>>, rows: map<Id, Id>, i: nat)
    requires |cached| == |ids| && i < |ids|
    ensures var r := Resolve(cached[i], RowOf(rows, ids[i]));
            && Served(ids[..i + 1], cached[..i + 1], rows)
               == Served(ids[..i], cached[..i], rows) + (if r.Some? then [Message(ids[i], r.value)] else [])
            && Dead(ids[..i + 1], cached[..i + 1], rows)
               == Dead(ids[..i], cached[..i], rows) + (if r.Some? then [] else [ids[i]])
            && Missing(ids[..i + 1], cached[..i + 1])
               == Missing(ids[..i], cached[..i]) + (if cached[i].None? then [ids[i]] else [])
  {
    assert ids[..i + 1][..i] == ids[..i] && cached[..i + 1][..i] == cached[..i];
  }

  lemma {:induction false} MissingAre(ids: seq<Id>, cached: seq<Option<Id>>, i: nat)
    requires |cached| == |ids| && i < |ids| && cached[i].None?
    ensures ids[i] in Missing(ids, cached)
  {
    if i < |ids| - 1 {
      MissingAre(ids[..|ids| - 1], cached[..|ids| - 1], i);
    }
  }

  method FindMissing(ids: seq<Id>, cached: seq<Option<Id>>) returns (missingIds: seq<Id>)
    requires |cached| == |ids|
    ensures missingIds == Missing(ids, cached)
  {
    missingIds := [];
    for i := 0 to |ids|
      invariant missingIds == Missing(ids[..i], cached[..i])
    {
      AnswerStep(ids, cached, map[], i);
      if cached[i].None? {
        missingIds := missingIds + [ids[i]];
      }
    }
    assert ids[..|ids|] == ids && cached[..|ids|] == cached;
  }

  /** The loops of `handleInboxPull`: only the ids missing from the cache are looked up in the table. */
  method AnswerPull(ids: seq<Id>, cached: seq<Option<Id>>, rows: map<Id, Id>)
    returns (out: seq<Message>, deadIds: seq<Id>)
    requires |cached| == |ids|
    ensures out == Served(ids, cached, rows) && deadIds == Dead(ids, cached, rows)
  {
    var missingIds := FindMissing(ids, cached);
    var byMsgId := map m | m in rows && m in missingIds :: rows[m];
    out, deadIds := [], [];
    for i := 0 to |ids|
      invariant out == Served(ids[..i], cached[..i], rows)
      invariant deadIds == Dead(ids[..i], cached[..i], rows)
    {
      AnswerStep(ids, cached, rows, i);
      if cached[i].None? {
        MissingAre(ids, cached, i);
      }
      var payload := if cached[i].Some? then cached[i] else RowOf(byMsgId, ids[i]);
      if payload.None? {
        deadIds := deadIds + [ids[i]];
      } else {
        out := out + [Message(ids[i], payload.value)];
      }
    }
    assert ids[..|ids|] == ids && cached[..|ids|] == cached;
  }

  // ---------------------------------------------------------------- requests in flight

  /** A request between two database or Redis commands, with what it holds. */
  datatype Frame =
    | Enqueueing(mail: seq<Envelope>)
    | Pulled(device: Id, ids: seq<Id>)
    | Looked(device: Id, ids: seq<Id>, cached: seq<Option<Id>>)
    | Dropping(device: Id, dead: seq<Id>)
    | Acking(device: Id, ids: seq<Id>, marks: seq<Id>)
    | Marking(device: Id, marks: seq<Id>)

  datatype Insertion = Insertion(device: Id, msgId: Id, at: int)

  datatype Answer = Answer(device: Id, asked: seq<Id>, served: seq<Message>, dead: seq<Id>)

  /**
   * `messages` are the stored messages with their payload and `rows` the delivery rows. History: `unbacked`
   * are the pairs that `/secret/send` set out to enqueue without a row, `log` lists the insertions into inbox
   * lists, `answers` the replies to pulls.
   */
  datatype State = State(v: View, messages: map<Id, Id>, rows: set<(Id, Id)>, unbacked: set<(Id, Id)>,
                         frames: map<Id, Frame>, log: seq<Insertion>, answers: seq<Answer>)

  datatype Event =
    | Push(h: Id, msgId: Id, payload: Id, receivers: seq<Id>)
    | Send(h: Id, mail: seq<Envelope>)
    | Pull(h: Id, device: Id, limit: int)
    | Ack(h: Id, device: Id, ids: seq<Id>)
    | Resume(h: Id)
    | Tick(later: int)

  predicate Enabled(s: State, e: Event) {
    match e
    case Resume(h) => h in s.frames
    case Tick(later) => later >= s.v.now
    case _ => e.h !in s.frames
  }

  const MESSAGE_TTL := 3_600

  function Fanout(msgId: Id, payload: Id, receivers: seq<Id>): (mail: seq<Envelope>)
    ensures forall e :: e in mail ==> e.msgId == msgId && e.toDevice in receivers
  {
    if receivers == [] then []
    else [Envelope(receivers[0], msgId, payload, None)] + Fanout(msgId, payload, receivers[1..])
  }

  /** `/messages/push`: the message unless it exists, and the rows that are missing. */
  function StorePush(s: State, msgId: Id, payload: Id, receivers: seq<Id>): State {
    s.(messages := if msgId in s.messages then s.messages else s.messages[msgId := payload],
       rows := s.rows + set d | d in receivers :: (d, msgId))
  }

  /** `/secret/send`: each message with its one row, both skipped if the message exists. */
  function StoreSend(s: State, mail: seq<Envelope>): State {
    if mail == [] then s
    else
      var init, e := StoreSend(s, mail[..|mail| - 1]), mail[|mail| - 1];
      if e.msgId in init.messages then init
      else init.(messages := init.messages[e.msgId := e.payload], rows := init.rows + {(e.toDevice, e.msgId)})
  }

  /** The pairs of a request that are about to be enqueued without a row. */
  function RowLess(s: State, mail: seq<Envelope>): set<(Id, Id)> {
    set e | e in mail && (e.toDevice, e.msgId) !in s.rows :: (e.toDevice, e.msgId)
  }

  function CachedAll(v: View, ids: seq<Id>): (cached: seq<Option<Id>>)
    ensures |cached| == |ids|
    ensures forall i :: 0 <= i < |ids| ==> cached[i] == Cached(v, ids[i])
  {
    if ids == [] then [] else [Cached(v, ids[0])] + CachedAll(v, ids[1..])
  }

  /** The messages that have a row for the device. */
  function RowsOf(s: State, device: Id): map<Id, Id> {
    map m | m in s.messages && (device, m) in s.rows :: s.messages[m]
  }

  /** The payloads found in the table go back into the cache. */
  function Repopulate(v: View, ids: seq<Id>, rows: map<Id, Id>): View {
    if ids == [] then v
    else
      var rest := Repopulate(v, ids[1..], rows);
      if ids[0] in rows then CachePayload(rest, ids[0], rows[ids[0]], MESSAGE_TTL) else rest
  }

  function Wait(s: State, h: Id, f: Frame): State {
    s.(frames := s.frames[h := f])
  }

  function Done(s: State, h: Id): State {
    s.(frames := s.frames - {h})
  }

  function EnqueueStep(s: State, h: Id, mail: seq<Envelope>): State {
    if mail == [] then Done(s, h)
    else
      var e := mail[0];
      var r := Enqueue(s.v, e.toDevice, e.msgId, e.payload, ResolveTtl(e.ttl, MESSAGE_TTL));
      var noted := if r.1 then s.log + [Insertion(e.toDevice, e.msgId, s.v.now)] else s.log;
      Wait(s.(v := r.0, log := noted), h, Enqueueing(mail[1..]))
  }

  function Reply(s: State, device: Id, ids: seq<Id>, cached: seq<Option<Id>>): Answer
    requires |cached| == |ids|
  {
    Answer(device, ids, Served(ids, cached, RowsOf(s, device)), Dead(ids, cached, RowsOf(s, device)))
  }

  function ReplyStep(s: State, h: Id, device: Id, ids: seq<Id>, cached: seq<Option<Id>>): State
    requires |cached| == |ids|
  {
    var answer := Reply(s, device, ids, cached);
    Wait(s.(v := Repopulate(s.v, Missing(ids, cached), RowsOf(s, device)), answers := s.answers + [answer]), h,
         Dropping(device, answer.dead))
  }

  function Continue(s: State, h: Id): State
    requires h in s.frames
  {
    match s.frames[h]
    case Enqueueing(mail) => EnqueueStep(s, h, mail)
    case Pulled(device, ids) => Wait(s, h, Looked(device, ids, CachedAll(s.v, ids)))
    case Looked(device, ids, cached) => if |cached| == |ids| then ReplyStep(s, h, device, ids, cached) else Done(s, h)
    case Dropping(device, dead) =>
      if dead == [] then Done(s, h) else Wait(s.(v := Remove(s.v, device, dead[0])), h, Dropping(device, dead[1..]))
    case Acking(device, ids, marks) =>
      if ids == [] then Wait(s, h, Marking(device, marks))
      else Wait(s.(v := Remove(s.v, device, ids[0])), h, Acking(device, ids[1..], marks))
    case Marking(device, marks) =>
      if marks == [] then Done(s, h)
      else Wait(s.(v := MarkSeen(s.v, device, marks[0], INBOX_TTL)), h, Marking(device, marks[1..]))
  }

  function Apply(s: State, e: Event): State
    requires Enabled(s, e)
  {
    match e
    case Push(h, msgId, payload, receivers) =>
      Wait(StorePush(s, msgId, payload, receivers), h, Enqueueing(Fanout(msgId, payload, receivers)))
    case Send(h, mail) =>
      var stored := StoreSend(s, mail);
      Wait(stored.(unbacked := s.unbacked + RowLess(stored, mail)), h, Enqueueing(mail))
    case Pull(h, device, limit) => Wait(s, h, Pulled(device, Dedup(Head(Inbox(s.v, device), limit))))
    case Ack(h, device, ids) => Wait(s, h, Acking(device, ids, ids))
    case Resume(h) => Continue(s, h)
    case Tick(later) => s.(v := s.v.(now := later))
  }

  ghost predicate Next(s: State, s': State) {
    exists e :: Enabled(s, e) && Apply(s, e) == s'
  }

  ghost predicate Run(states: seq<State>) {
    |states| > 0 && forall i :: 0 <= i < |states| - 1 ==> StepAt(states, i)
  }

  ghost predicate StepAt(states: seq<State>, i: int)
    requires 0 <= i < |states| - 1
  {
    Next(states[i], states[i + 1])
  }

  ghost predicate Start(s: State) {
    s.v.lists == map[] && s.v.seen == map[] && s.v.payloads == map[] && s.messages == map[] && s.rows == {}
    && s.unbacked == {} && s.frames == map[] && s.log == [] && s.answers == []
  }

  lemma {:induction false} StoreSendKeeps(s: State, mail: seq<Envelope>)
    ensures var s' := StoreSend(s, mail);
            && s'.v == s.v && s'.log == s.log && s'.answers == s.answers && s'.frames == s.frames
            && s'.unbacked == s.unbacked
            && s.rows <= s'.rows && (forall m :: m in s.messages ==> m in s'.messages)
            && (forall p :: p in s'.rows ==> p in s.rows || p.1 in s'.messages)
  {
    if mail != [] {
      StoreSendKeeps(s, mail[..|mail| - 1]);
    }
  }

  // ---------------------------------------------------------------- one insertion per seen window

  /** Every insertion has left a marker that outlives its window. */
  ghost predicate Marked(s: State, i: int)
    requires 0 <= i < |s.log|
  {
    var e := s.log[i];
    e.at <= s.v.now && (e.device, e.msgId) in s.v.seen && s.v.seen[(e.device, e.msgId)] >= e.at + INBOX_TTL
  }

  /** Two insertions of the same message for the same device are at least a window apart. */
  ghost predicate Apart(log: seq<Insertion>) {
    forall i, j :: 0 <= i < j < |log| && log[i].device == log[j].device && log[i].msgId == log[j].msgId ==>
      log[j].at - log[i].at >= INBOX_TTL
  }

  ghost predicate WindowInv(s: State) {
    (forall i :: 0 <= i < |s.log| ==> Marked(s, i)) && Apart(s.log)
  }

  /** Markers are only ever moved to a later time. */
  predicate SeenGrows(v: View, v': View) {
    v.now <= v'.now && forall k :: k in v.seen ==> k in v'.seen && v.seen[k] <= v'.seen[k]
  }

  lemma {:induction false} RepopulateKeeps(v: View, ids: seq<Id>, rows: map<Id, Id>)
    ensures var v' := Repopulate(v, ids, rows); v'.seen == v.seen && v'.lists == v.lists && v'.now == v.now
  {
    if ids != [] {
      RepopulateKeeps(v, ids[1..], rows);
    }
  }

  lemma MarkGrows(v: View, device: Id, msgId: Id)
    ensures SeenGrows(v, MarkSeen(v, device, msgId, INBOX_TTL))
  {
  }

  lemma EnqueueGrows(v: View, device: Id, msgId: Id, payload: Id, ttl: int)
    ensures SeenGrows(v, Enqueue(v, device, msgId, payload, ttl).0)
    ensures Enqueue(v, device, msgId, payload, ttl).1 ==>
              && !SeenNow(v, device, msgId)
              && Enqueue(v, device, msgId, payload, ttl).0.seen[(device, msgId)] == v.now + INBOX_TTL
  {
    MarkGrows(v, device, msgId);
  }

  lemma StepGrows(s: State, e: Event)
    requires Enabled(s, e)
    ensures SeenGrows(s.v, Apply(s, e).v)
  {
    match e
    case Send(_, mail) => StoreSendKeeps(s, mail);
    case Resume(h) => ResumeGrows(s, h);
    case _ =>
  }

  lemma ResumeGrows(s: State, h: Id)
    requires h in s.frames
    ensures SeenGrows(s.v, Continue(s, h).v)
  {
    match s.frames[h]
    case Enqueueing(mail) =>
      if mail != [] {
        EnqueueGrows(s.v, mail[0].toDevice, mail[0].msgId, mail[0].payload, ResolveTtl(mail[0].ttl, MESSAGE_TTL));
      }
    case Looked(device, ids, cached) =>
      if |cached| == |ids| {
        RepopulateKeeps(s.v, Missing(ids, cached), RowsOf(s, device));
      }
    case _ =>
  }

  lemma MarkedStays(s: State, s': State, i: int)
    requires 0 <= i < |s.log| <= |s'.log| && s'.log[i] == s.log[i] && Marked(s, i) && SeenGrows(s.v, s'.v)
    ensures Marked(s', i)
  {
  }

  lemma AllMarkedStay(s: State, s': State)
    requires (forall i :: 0 <= i < |s.log| ==> Marked(s, i)) && s.log <= s'.log && SeenGrows(s.v, s'.v)
    ensures forall i :: 0 <= i < |s.log| ==> Marked(s', i)
  {
    forall i | 0 <= i < |s.log|
      ensures Marked(s', i)
    {
      MarkedStays(s, s', i);
    }
  }

  /** A pair that is inserted now was last inserted at least a window ago. */
  lemma InsertionIsApart(s: State, device: Id, msgId: Id)
    requires WindowInv(s) && !SeenNow(s.v, device, msgId)
    ensures Apart(s.log + [Insertion(device, msgId, s.v.now)])
  {
    forall i | 0 <= i < |s.log| && s.log[i].device == device && s.log[i].msgId == msgId
      ensures s.v.now - s.log[i].at >= INBOX_TTL
    {
      assert Marked(s, i);
    }
  }

  lemma EnqueueKeepsWindow(s: State, h: Id, mail: seq<Envelope>)
    requires WindowInv(s) && mail != []
    ensures WindowInv(EnqueueStep(s, h, mail))
  {
    var e, s' := mail[0], EnqueueStep(s, h, mail);
    EnqueueGrows(s.v, e.toDevice, e.msgId, e.payload, ResolveTtl(e.ttl, MESSAGE_TTL));
    AllMarkedStay(s, s');
    if !SeenNow(s.v, e.toDevice, e.msgId) {
      InsertionIsApart(s, e.toDevice, e.msgId);
    }
  }

  /** Only an enqueue adds to the log. */
  lemma LogStays(s: State, e: Event)
    requires Enabled(s, e) && !(e.Resume? && s.frames[e.h].Enqueueing?)
    ensures Apply(s, e).log == s.log
  {
    match e
    case Send(_, mail) => StoreSendKeeps(s, mail);
    case _ =>
  }

  lemma StepKeepsWindow(s: State, e: Event)
    requires WindowInv(s) && Enabled(s, e)
    ensures WindowInv(Apply(s, e))
  {
    StepGrows(s, e);
    if e.Resume? && s.frames[e.h].Enqueueing? && s.frames[e.h].mail != [] {
      EnqueueKeepsWindow(s, e.h, s.frames[e.h].mail);
    } else {
      if !(e.Resume? && s.frames[e.h].Enqueueing?) {
        LogStays(s, e);
      }
      AllMarkedStay(s, Apply(s, e));
    }
  }

  /** In every run, no pair of device and message is inserted twice within seven days, also not after an ack. */
  lemma {:induction false} OneInsertionPerWindow(states: seq<State>, i: nat)
    requires Run(states) && Start(states[0]) && i < |states|
    ensures WindowInv(states[i])
  {
    if i > 0 {
      OneInsertionPerWindow(states, i - 1);
      assert StepAt(states, i - 1);
      NextKeepsWindow(states[i - 1], states[i]);
    }
  }

  lemma NextKeepsWindow(s: State, s': State)
    requires WindowInv(s) && Next(s, s')
    ensures WindowInv(s')
  {
    var e :| Enabled(s, e) && Apply(s, e) == s';
    StepKeepsWindow(s, e);
  }

  // ---------------------------------------------------------------- order

  lemma {:induction false} WithoutItself(ids: seq<Id>, gone: seq<Id>)
    requires forall x :: x in ids ==> x in gone
    ensures Without(ids, gone) == []
  {
    if ids != [] {
      assert ids[0] in gone;
      WithoutItself(ids[1..], gone);
    }
  }

  /** What a step does to an inbox: some ids go, the others keep their order, new ones come last. */
  ghost predicate OnlyLosesOrAppends(before: seq<Id>, after: seq<Id>) {
    exists gone, added :: after == Without(before, gone) + added
  }

  lemma Unmoved(ids: seq<Id>, added: seq<Id>)
    ensures OnlyLosesOrAppends(ids, ids + added)
    ensures OnlyLosesOrAppends(ids, ids)
  {
    WithoutNothing(ids);
    assert ids + added == Without(ids, []) + added;
    assert ids == Without(ids, []) + [];
  }

  lemma Removed(ids: seq<Id>, gone: seq<Id>)
    ensures OnlyLosesOrAppends(ids, Without(ids, gone))
  {
    assert Without(ids, gone) == Without(ids, gone) + [];
  }

  lemma Emptied(ids: seq<Id>)
    ensures OnlyLosesOrAppends(ids, [])
  {
    WithoutItself(ids, ids);
    assert [] == Without(ids, ids) + [];
  }

  lemma RemoveFromInbox(v: View, device: Id, msgId: Id, other: Id)
    ensures OnlyLosesOrAppends(Inbox(v, other), Inbox(Remove(v, device, msgId), other))
  {
    Unmoved(Inbox(v, other), []);
    Removed(Inbox(v, other), [msgId]);
  }

  lemma EnqueueAppends(v: View, device: Id, msgId: Id, payload: Id, ttl: int, other: Id)
    ensures OnlyLosesOrAppends(Inbox(v, other), Inbox(Enqueue(v, device, msgId, payload, ttl).0, other))
  {
    Unmoved(Inbox(v, other), [msgId]);
  }

  /** The next command of a request is an enqueue of a pair that has been seen. */
  predicate IsRetry(s: State, e: Event) {
    e.Resume? && e.h in s.frames && s.frames[e.h].Enqueueing? && s.frames[e.h].mail != []
    && SeenNow(s.v, s.frames[e.h].mail[0].toDevice, s.frames[e.h].mail[0].msgId)
  }

  /** No step reorders an inbox; an enqueue of a pair already seen changes nothing at all. */
  lemma InboxKeepsOrder(s: State, e: Event, device: Id)
    requires Enabled(s, e)
    ensures OnlyLosesOrAppends(Inbox(s.v, device), Inbox(Apply(s, e).v, device))
    ensures IsRetry(s, e) ==> Apply(s, e).v == s.v
  {
    Unmoved(Inbox(s.v, device), []);
    match e
    case Tick(_) => Emptied(Inbox(s.v, device));
    case Send(_, mail) => StoreSendKeeps(s, mail);
    case Resume(h) => ResumeKeepsOrder(s, h, device);
    case _ =>
  }

  lemma ResumeKeepsOrder(s: State, h: Id, device: Id)
    requires h in s.frames
    ensures OnlyLosesOrAppends(Inbox(s.v, device), Inbox(Continue(s, h).v, device))
  {
    Unmoved(Inbox(s.v, device), []);
    match s.frames[h]
    case Enqueueing(mail) =>
      if mail != [] {
        EnqueueAppends(s.v, mail[0].toDevice, mail[0].msgId, mail[0].payload, ResolveTtl(mail[0].ttl, MESSAGE_TTL),
                       device);
      }
    case Looked(d, ids, cached) =>
      if |cached| == |ids| {
        RepopulateKeeps(s.v, Missing(ids, cached), RowsOf(s, d));
      }
    case Dropping(d, dead) =>
      if dead != [] {
        RemoveFromInbox(s.v, d, dead[0], device);
      }
    case Acking(d, ids, _) =>
      if ids != [] {
        RemoveFromInbox(s.v, d, ids[0], device);
      }
    case _ =>
  }

  // ---------------------------------------------------------------- nothing that was pushed is dropped

  /** The pair has its delivery row, or `/secret/send` enqueued it without one. */
  predicate Backed(s: State, device: Id, msgId: Id) {
    (device, msgId) in s.rows || (device, msgId) in s.unbacked
  }

  predicate AllBacked(s: State, device: Id, ids: seq<Id>) {
    forall m :: m in ids ==> Backed(s, device, m)
  }

  /** Every id the request holds for a device is backed, and what it drops has no row. */
  predicate FrameFits(s: State, f: Frame) {
    match f
    case Enqueueing(mail) => forall e :: e in mail ==> Backed(s, e.toDevice, e.msgId)
    case Pulled(device, ids) => AllBacked(s, device, ids)
    case Looked(device, ids, cached) => AllBacked(s, device, ids) && |cached| == |ids|
    case Dropping(device, dead) => forall m :: m in dead ==> (device, m) in s.unbacked
    case _ => true
  }

  /** The answer serves what has a row; what it finds dead was enqueued without one. */
  predicate AnswerFits(s: State, a: Answer) {
    && (forall m :: m in a.dead ==> (a.device, m) in s.unbacked)
    && |a.served| + |a.dead| == |a.asked|
  }

  ghost predicate RowsInv(s: State) {
    && (forall p :: p in s.rows ==> p.1 in s.messages)
    && (forall d :: d in s.v.lists ==> AllBacked(s, d, s.v.lists[d].value))
    && (forall h :: h in s.frames ==> FrameFits(s, s.frames[h]))
    && (forall a :: a in s.answers ==> AnswerFits(s, a))
  }

  /** Rows and messages are added and never removed. */
  predicate Grows(s: State, s': State) {
    s.rows <= s'.rows && s.unbacked <= s'.unbacked && (forall m :: m in s.messages ==> m in s'.messages)
  }

  lemma FrameStays(s: State, s': State, f: Frame)
    requires Grows(s, s') && FrameFits(s, f)
    ensures FrameFits(s', f)
  {
  }

  /** A step that adds rows at most and leaves lists and answers alone, apart from the request `h`. */
  lemma RowsGrow(s: State, s': State, h: Id)
    requires RowsInv(s) && Grows(s, s') && s'.v.lists == s.v.lists && s'.answers == s.answers
    requires forall p :: p in s'.rows ==> p.1 in s'.messages
    requires forall q :: q in s'.frames && q != h ==> q in s.frames && s'.frames[q] == s.frames[q]
    requires h in s'.frames ==> FrameFits(s', s'.frames[h])
    ensures RowsInv(s')
  {
    forall q | q in s'.frames
      ensures FrameFits(s', s'.frames[q])
    {
      if q != h {
        FrameStays(s, s', s.frames[q]);
      }
    }
    forall a | a in s'.answers
      ensures AnswerFits(s', a)
    {
      assert AnswerFits(s, a);
    }
  }

  /** A step that changes one list, or adds an answer, to something that fits. */
  lemma ListsFit(s: State, s': State)
    requires RowsInv(s) && s' == s.(v := s'.v, answers := s'.answers)
    requires forall d :: d in s'.v.lists ==> AllBacked(s, d, s'.v.lists[d].value)
    requires forall a :: a in s'.answers ==> a in s.answers || AnswerFits(s, a)
    ensures RowsInv(s')
  {
    forall q | q in s'.frames
      ensures FrameFits(s', s'.frames[q])
    {
      FrameStays(s, s', s.frames[q]);
    }
    forall a | a in s'.answers
      ensures AnswerFits(s', a)
    {
      assert AnswerFits(s, a);
    }
  }

  lemma RemoveKeepsRows(s: State, device: Id, msgId: Id)
    requires RowsInv(s)
    ensures RowsInv(s.(v := Remove(s.v, device, msgId)))
  {
    if device in s.v.lists {
      WithoutKeeps(s.v.lists[device].value, [msgId]);
    }
    ListsFit(s, s.(v := Remove(s.v, device, msgId)));
  }

  lemma EnqueueKeepsRows(s: State, h: Id, mail: seq<Envelope>)
    requires RowsInv(s) && h in s.frames && s.frames[h] == Enqueueing(mail) && mail != []
    ensures RowsInv(EnqueueStep(s, h, mail))
  {
    var e, s' := mail[0], EnqueueStep(s, h, mail);
    assert FrameFits(s, s.frames[h]) && e in mail;
    var changed := s.(v := s'.v);
    EnqueuedLists(s, e);
    ListsFit(s, changed);
    RowsGrow(changed.(log := s'.log), s', h);
  }

  lemma EnqueuedLists(s: State, e: Envelope)
    requires RowsInv(s) && Backed(s, e.toDevice, e.msgId)
    ensures var v' := Enqueue(s.v, e.toDevice, e.msgId, e.payload, ResolveTtl(e.ttl, MESSAGE_TTL)).0;
            forall d :: d in v'.lists ==> AllBacked(s, d, v'.lists[d].value)
  {
  }

  lemma {:induction false} DeadHaveNoRow(ids: seq<Id>, cached: seq<Option<Id>>, rows: map<Id, Id>)
    requires |cached| == |ids|
    ensures forall m :: m in Dead(ids, cached, rows) ==> m in ids && m !in rows
    ensures |Served(ids, cached, rows)| + |Dead(ids, cached, rows)| == |ids|
  {
    if ids != [] {
      var n := |ids| - 1;
      DeadHaveNoRow(ids[..n], cached[..n], rows);
      assert ids == ids[..n] + [ids[n]];
    }
  }

  lemma ReplyFits(s: State, device: Id, ids: seq<Id>, cached: seq<Option<Id>>)
    requires forall p :: p in s.rows ==> p.1 in s.messages
    requires AllBacked(s, device, ids) && |cached| == |ids|
    ensures AnswerFits(s, Reply(s, device, ids, cached))
  {
    DeadHaveNoRow(ids, cached, RowsOf(s, device));
    forall m | m in Dead(ids, cached, RowsOf(s, device))
      ensures (device, m) in s.unbacked
    {
      assert Backed(s, device, m);
    }
  }

  lemma ReplyKeepsRows(s: State, h: Id, device: Id, ids: seq<Id>, cached: seq<Option<Id>>)
    requires RowsInv(s) && h in s.frames && s.frames[h] == Looked(device, ids, cached)
    ensures |cached| == |ids| && RowsInv(ReplyStep(s, h, device, ids, cached))
  {
    assert FrameFits(s, s.frames[h]);
    RepopulateKeeps(s.v, Missing(ids, cached), RowsOf(s, device));
    ReplyFits(s, device, ids, cached);
    var s' := ReplyStep(s, h, device, ids, cached);
    var answered := s.(v := s'.v, answers := s'.answers);
    ListsFit(s, answered);
    RowsGrow(answered, s', h);
  }

  lemma SendKeepsRows(s: State, h: Id, mail: seq<Envelope>)
    requires RowsInv(s) && h !in s.frames
    ensures RowsInv(Apply(s, Send(h, mail)))
  {
    StoreSendKeeps(s, mail);
    RowsGrow(s, Apply(s, Send(h, mail)), h);
  }

  lemma HeadBacked(s: State, device: Id, limit: int)
    requires RowsInv(s)
    ensures AllBacked(s, device, Dedup(Head(Inbox(s.v, device), limit)))
  {
    assert AllBacked(s, device, Inbox(s.v, device));
  }

  lemma StepKeepsRows(s: State, e: Event)
    requires RowsInv(s) && Enabled(s, e)
    ensures RowsInv(Apply(s, e))
  {
    var s' := Apply(s, e);
    match e
    case Push(h, _, _, _) => RowsGrow(s, s', h);
    case Send(h, mail) => SendKeepsRows(s, h, mail);
    case Pull(h, device, limit) =>
      HeadBacked(s, device, limit);
      RowsGrow(s, s', h);
    case Ack(h, _, _) => RowsGrow(s, s', h);
    case Tick(_) => ListsFit(s, s');
    case Resume(h) => ResumeKeepsRows(s, h);
  }

  lemma ResumeKeepsRows(s: State, h: Id)
    requires RowsInv(s) && h in s.frames
    ensures RowsInv(Continue(s, h))
  {
    var f := s.frames[h];
    assert FrameFits(s, f);
    match f
    case Enqueueing(mail) =>
      if mail != [] {
        EnqueueKeepsRows(s, h, mail);
      } else {
        RowsGrow(s, Continue(s, h), h);
      }
    case Looked(device, ids, cached) => ReplyKeepsRows(s, h, device, ids, cached);
    case Dropping(device, dead) =>
      if dead != [] {
        RemoveKeepsRows(s, device, dead[0]);
        RowsGrow(s.(v := Remove(s.v, device, dead[0])), Continue(s, h), h);
      } else {
        RowsGrow(s, Continue(s, h), h);
      }
    case Acking(device, ids, _) =>
      if ids != [] {
        RemoveKeepsRows(s, device, ids[0]);
        RowsGrow(s.(v := Remove(s.v, device, ids[0])), Continue(s, h), h);
      } else {
        RowsGrow(s, Continue(s, h), h);
      }
    case _ => RowsGrow(s, Continue(s, h), h);
  }

  lemma NextKeepsRows(s: State, s': State)
    requires RowsInv(s) && Next(s, s')
    ensures RowsInv(s')
  {
    var e :| Enabled(s, e) && Apply(s, e) == s';
    StepKeepsRows(s, e);
  }

  /**
   * In every run, every id in an inbox has its delivery row unless `/secret/send` enqueued it without one,
   * and only such ids are ever found dead: all others that a pull asks for are served.
   */
  lemma {:induction false} NothingPushedIsDropped(states: seq<State>, i: nat)
    requires Run(states) && Start(states[0]) && i < |states|
    ensures RowsInv(states[i])
  {
    if i > 0 {
      NothingPushedIsDropped(states, i - 1);
      assert StepAt(states, i - 1);
      NextKeepsRows(states[i - 1], states[i]);
    }
  }

  /**
   * A send leaves a pair without a row exactly when its message was stored for others only, earlier or in the same
   * request.
   */
  lemma {:induction false} RowLessIff(s: State, mail: seq<Envelope>, e: Envelope)
    requires e in mail
    ensures (e.toDevice, e.msgId) in RowLess(StoreSend(s, mail), mail)
       <==> (e.toDevice, e.msgId) !in s.rows && !(e.msgId !in s.messages && FirstFor(mail, e.msgId) == Some(e.toDevice))
  {
    SendRows(s, mail, e.toDevice, e.msgId);
  }

  /** The receiver of the first of the envelopes with that message. */
  function FirstFor(mail: seq<Envelope>, msgId: Id): (d: Option<Id>)
    ensures d.Some? <==> exists e :: e in mail && e.msgId == msgId
  {
    if mail == [] then None
    else
      var init, e := FirstFor(mail[..|mail| - 1], msgId), mail[|mail| - 1];
      assert mail == mail[..|mail| - 1] + [e];
      if init.Some? then init else if e.msgId == msgId then Some(e.toDevice) else None
  }

  lemma {:induction false} SendRows(s: State, mail: seq<Envelope>, device: Id, msgId: Id)
    ensures msgId in StoreSend(s, mail).messages <==> msgId in s.messages || FirstFor(mail, msgId).Some?
    ensures (device, msgId) in StoreSend(s, mail).rows
       <==> (device, msgId) in s.rows || (msgId !in s.messages && FirstFor(mail, msgId) == Some(device))
  {
    if mail != [] {
      SendRows(s, mail[..|mail| - 1], device, msgId);
    }
  }
}
