/** From a push to its reader (src/routes/secret.ts, src/lib/secretInbox.ts), over the steps of the delivery machine. */
module SecretPushes {
  import opened Aead
  import opened Bytes
  import opened Text
  import opened SecretInbox
  import opened SecretDelivery
  import opened SecretRounds

  // ---------------------------------------------------------------- what is stored

  /**
   * A push stores the message unless it exists and the rows that are missing, and goes on to enqueue it for each
   * receiver.
   */
  lemma PushStores(s: State, h: Id, msgId: Id, payload: Id, receivers: seq<Id>)
    requires Enabled(s, Push(h, msgId, payload, receivers))
    ensures var after := Apply(s, Push(h, msgId, payload, receivers));
            && after.messages == (if msgId in s.messages then s.messages else s.messages[msgId := payload])
            && (forall d, m :: (d, m) in after.rows <==> (d, m) in s.rows || (m == msgId && d in receivers))
            && after.v == s.v && after.unbacked == s.unbacked && after.log == s.log && after.answers == s.answers
            && after.frames == s.frames[h := Enqueueing(Fanout(msgId, payload, receivers))]
  {
  }

  lemma {:induction false} FanoutIs(msgId: Id, payload: Id, receivers: seq<Id>, i: nat)
    requires i < |receivers|
    ensures |Fanout(msgId, payload, receivers)| == |receivers|
    ensures Fanout(msgId, payload, receivers)[i] == Envelope(receivers[i], msgId, payload, None)
  {
    if |receivers| > 1 {
      FanoutIs(msgId, payload, receivers[1..], if i > 0 then i - 1 else 0);
    }
  }

  /** The first envelope of a request with that message. */
  function FirstOf(mail: seq<Envelope>, msgId: Id): Option<Envelope> {
    if mail == [] then None else if mail[0].msgId == msgId then Some(mail[0]) else FirstOf(mail[1..], msgId)
  }

  lemma {:induction false} FirstOfSnoc(init: seq<Envelope>, last: Envelope, msgId: Id)
    ensures FirstOf(init + [last], msgId)
         == if FirstOf(init, msgId).Some? then FirstOf(init, msgId) else if last.msgId == msgId then Some(last)
           else None
  {
    if init == [] {
      assert init + [last] == [last];
    } else {
      assert (init + [last])[1..] == init[1..] + [last];
      FirstOfSnoc(init[1..], last, msgId);
    }
  }

  /**
   * A send stores each message that does not exist, once, as its first envelope says, with a row for that receiver
   * alone.
   */
  lemma {:induction false} SendStores(s: State, mail: seq<Envelope>, m: Id, d: Id)
    ensures var after, first := StoreSend(s, mail), FirstOf(mail, m);
            && (m in after.messages <==> m in s.messages || first.Some?)
            && (m in s.messages ==> after.messages[m] == s.messages[m])
            && (m !in s.messages && first.Some? ==> after.messages[m] == first.value.payload)
            && ((d, m) in after.rows
                <==> (d, m) in s.rows || (m !in s.messages && first.Some? && first.value.toDevice == d))
  {
    if mail != [] {
      var init, last := mail[..|mail| - 1], mail[|mail| - 1];
      SendStores(s, init, m, d);
      SendStores(s, init, last.msgId, d);
      FirstOfSnoc(init, last, m);
      assert mail == init + [last];
    }
  }

  /** And goes on to enqueue all of them. */
  lemma SendEnqueues(s: State, h: Id, mail: seq<Envelope>)
    requires Enabled(s, Send(h, mail))
    ensures var after := Apply(s, Send(h, mail));
            && after.v == s.v && after.log == s.log && after.answers == s.answers
            && after.frames == s.frames[h := Enqueueing(mail)]
            && after.messages == StoreSend(s, mail).messages && after.rows == StoreSend(s, mail).rows
            && forall d, m :: (d, m) in after.unbacked <==>
                 (d, m) in s.unbacked
                 || ((d, m) !in after.rows && exists e :: e in mail && e.toDevice == d && e.msgId == m)
  {
    StoreSendKeeps(s, mail);
    var stored := StoreSend(s, mail);
    forall d, m
      ensures (d, m) in RowLess(stored, mail) <==>
                (d, m) !in stored.rows && exists e :: e in mail && e.toDevice == d && e.msgId == m
    {
      if (d, m) !in stored.rows && exists e :: e in mail && e.toDevice == d && e.msgId == m {
        var e :| e in mail && e.toDevice == d && e.msgId == m;
        assert (e.toDevice, e.msgId) in RowLess(stored, mail);
      }
    }
  }

  // ---------------------------------------------------------------- an ack that runs to its end

  lemma {:induction false} MarkingMarks(s: State, h: Id, device: Id, marks: seq<Id>, m: Id)
    requires h in s.frames && s.frames[h] == Marking(device, marks)
    ensures SeenNow(Complete(s, h).v, device, m) <==> m in marks || SeenNow(s.v, device, m)
    decreases |marks|
  {
    CompleteStep(s, h);
    if marks == [] {
      assert Complete(Continue(s, h), h) == Continue(s, h);
    } else {
      MarkingMarks(Continue(s, h), h, device, marks[1..], m);
    }
  }

  lemma {:induction false} AckingMarks(s: State, h: Id, device: Id, ids: seq<Id>, marks: seq<Id>, m: Id)
    requires h in s.frames && s.frames[h] == Acking(device, ids, marks)
    ensures SeenNow(Complete(s, h).v, device, m) <==> m in marks || SeenNow(s.v, device, m)
    decreases |ids|
  {
    CompleteStep(s, h);
    if ids == [] {
      MarkingMarks(Continue(s, h), h, device, marks, m);
    } else {
      AckingMarks(Continue(s, h), h, device, ids[1..], marks, m);
    }
  }

  /** What has been acked counts as seen, so that it is not enqueued again. */
  lemma AckMarks(s: State, h: Id, device: Id, ids: seq<Id>, m: Id)
    requires h !in s.frames
    ensures SeenNow(Complete(Apply(s, Ack(h, device, ids)), h).v, device, m) <==> m in ids || SeenNow(s.v, device, m)
  {
    AckingMarks(Apply(s, Ack(h, device, ids)), h, device, ids, ids, m);
  }

  // ---------------------------------------------------------------- a push that runs to its end

  predicate ForOne(mail: seq<Envelope>, msgId: Id, payload: Id) {
    forall i :: 0 <= i < |mail| ==> mail[i].msgId == msgId && mail[i].payload == payload && mail[i].ttl.None?
  }

  predicate Receives(mail: seq<Envelope>, device: Id) {
    exists i :: 0 <= i < |mail| && mail[i].toDevice == device
  }

  /** What enqueuing leaves of the rest of the state. */
  ghost predicate OnlyEnqueues(s: State, s': State, h: Id) {
    && s'.frames == s.frames - {h} && s'.answers == s.answers && s'.messages == s.messages && s'.rows == s.rows
    && s'.unbacked == s.unbacked && s'.v.now == s.v.now
  }

  /** Every receiver who has not seen the message has it at the end of the inbox, and the cache has its payload. */
  ghost predicate Enqueued(s: State, s': State, mail: seq<Envelope>, msgId: Id, payload: Id, d: Id) {
    && Inbox(s'.v, d) == Inbox(s.v, d) + (if Receives(mail, d) && !SeenNow(s.v, d, msgId) then [msgId] else [])
    && (Receives(mail, d) ==> SeenNow(s'.v, d, msgId))
    && (!Receives(mail, d) ==> (SeenNow(s'.v, d, msgId) <==> SeenNow(s.v, d, msgId)))
    && (Cached(s.v, msgId).Some? ==> Cached(s'.v, msgId) == Cached(s.v, msgId))
    && (Cached(s.v, msgId).None? ==> Cached(s'.v, msgId) in {None, Some(payload)})
    && (Receives(mail, d) && !SeenNow(s.v, d, msgId) ==> Cached(s'.v, msgId).Some?)
  }

  lemma EnqueueOne(v: View, device: Id, msgId: Id, payload: Id, d: Id)
    ensures var v' := Enqueue(v, device, msgId, payload, ResolveTtl(None, MESSAGE_TTL)).0;
            && v'.now == v.now
            && Inbox(v', d) == Inbox(v, d) + (if d == device && !SeenNow(v, d, msgId) then [msgId] else [])
            && (SeenNow(v', d, msgId) <==> d == device || SeenNow(v, d, msgId))
            && Cached(v', msgId)
                == (if Cached(v, msgId).None? && !SeenNow(v, device, msgId) then Some(payload) else Cached(v, msgId))
  {
  }

  lemma {:induction false} EnqueueingCompletes(s: State, h: Id, mail: seq<Envelope>, msgId: Id, payload: Id, d: Id)
    requires h in s.frames && s.frames[h] == Enqueueing(mail) && ForOne(mail, msgId, payload)
    ensures OnlyEnqueues(s, Complete(s, h), h) && Enqueued(s, Complete(s, h), mail, msgId, payload, d)
    decreases |mail|
  {
    CompleteStep(s, h);
    if mail == [] {
      assert Complete(Continue(s, h), h) == Continue(s, h);
    } else {
      EnqueueOne(s.v, mail[0].toDevice, msgId, payload, d);
      EnqueueingCompletes(Continue(s, h), h, mail[1..], msgId, payload, d);
      FirstReceives(mail, d);
      assert s.frames[h := Enqueueing(mail[1..])] - {h} == s.frames - {h};
    }
  }

  lemma FirstReceives(mail: seq<Envelope>, d: Id)
    requires mail != []
    ensures Receives(mail, d) <==> mail[0].toDevice == d || Receives(mail[1..], d)
  {
    if Receives(mail[1..], d) {
      var i :| 0 <= i < |mail[1..]| && mail[1..][i].toDevice == d;
      assert mail[i + 1].toDevice == d;
    }
    if Receives(mail, d) {
      var i :| 0 <= i < |mail| && mail[i].toDevice == d;
      if i > 0 {
        assert mail[1..][i - 1].toDevice == d;
      }
    }
  }

  lemma FanoutReceives(msgId: Id, payload: Id, receivers: seq<Id>, d: Id)
    ensures ForOne(Fanout(msgId, payload, receivers), msgId, payload)
    ensures Receives(Fanout(msgId, payload, receivers), d) <==> d in receivers
  {
    var mail := Fanout(msgId, payload, receivers);
    forall i | 0 <= i < |receivers|
      ensures |mail| == |receivers| && mail[i] == Envelope(receivers[i], msgId, payload, None)
    {
      FanoutIs(msgId, payload, receivers, i);
    }
    if d in receivers {
      var i :| 0 <= i < |receivers| && receivers[i] == d;
      assert mail[i].toDevice == d;
    }
  }

  function Pushed(s: State, h: Id, msgId: Id, payload: Id, receivers: seq<Id>): State
    requires h !in s.frames
  {
    Complete(Apply(s, Push(h, msgId, payload, receivers)), h)
  }

  /** Of a push that runs to its end: who has not seen the message has it in the inbox, last, and it resolves. */
  lemma PushCompletes(s: State, h: Id, msgId: Id, payload: Id, receivers: seq<Id>, d: Id)
    requires h !in s.frames && d in receivers && !SeenNow(s.v, d, msgId)
    ensures var s' := Pushed(s, h, msgId, payload, receivers);
            && s'.frames == s.frames && s'.answers == s.answers
            && Inbox(s'.v, d) == Inbox(s.v, d) + [msgId]
            && Resolution(s', d, msgId) == Some(if Cached(s.v, msgId).Some? then Cached(s.v, msgId).value else payload)
  {
    var mail := Fanout(msgId, payload, receivers);
    FanoutReceives(msgId, payload, receivers, d);
    EnqueueingCompletes(Apply(s, Push(h, msgId, payload, receivers)), h, mail, msgId, payload, d);
    assert s.frames[h := Enqueueing(mail)] - {h} == s.frames;
  }

  /**
   * And a client that then reads its inbox to the end gets it: the message comes last, once, with the payload
   * pushed, or the one that an earlier push of the same message has left in the cache.
   */
  lemma PushIsRead(s: State, h: Id, msgId: Id, payload: Id, receivers: seq<Id>, d: Id, k: Id, limits: nat -> int)
    requires h !in s.frames && k !in s.frames && d in receivers && !SeenNow(s.v, d, msgId)
    requires msgId !in Inbox(s.v, d)
    ensures k !in Pushed(s, h, msgId, payload, receivers).frames
    ensures var pushed := Pushed(s, h, msgId, payload, receivers);
            var mail := MailOf(pushed, d, Dedup(Inbox(s.v, d)));
            Received(ReadAll(pushed, k, d, limits, 0).answers)
            == Received(s.answers) + mail
               + [Message(msgId, if Cached(s.v, msgId).Some? then Cached(s.v, msgId).value else payload)]
  {
    PushCompletes(s, h, msgId, payload, receivers, d);
    var pushed := Pushed(s, h, msgId, payload, receivers);
    RoundsDeliverAll(pushed, k, d, limits, 0);
    var ids := Inbox(s.v, d);
    DedupSnoc(ids, msgId);
    MailAppend(pushed, d, Dedup(ids), [msgId]);
    var mail := MailOf(pushed, d, Dedup(ids));
    assert MailOf(pushed, d, [msgId]) == [Message(msgId, Resolution(pushed, d, msgId).value)] by {
      assert [msgId][..0] == [];
      assert MailOf(pushed, d, []) == [];
    }
    Associate(Received(s.answers), mail, MailOf(pushed, d, [msgId]));
  }
}
