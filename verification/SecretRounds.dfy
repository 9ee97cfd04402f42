/**
 * Reading the secret inbox to its end: rounds of pull and ack (src/routes/secret.ts) as runs of the delivery machine.
 */
module SecretRounds {
  import opened Aead
  import opened Bytes
  import opened Text
  import opened SecretInbox
  import opened SecretDelivery

  // ---------------------------------------------------------------- what a pull answers, by id

  /** What an id of this device's inbox resolves to: its cached payload, or else the one in the table. */
  function Resolution(s: State, device: Id, msgId: Id): Option<Id> {
    Resolve(Cached(s.v, msgId), RowOf(RowsOf(s, device), msgId))
  }

  /** The messages for those of the ids that resolve, in order. */
  function MailOf(s: State, device: Id, ids: seq<Id>): seq<Message> {
    if ids == [] then []
    else
      var n := |ids| - 1;
      var r := Resolution(s, device, ids[n]);
      MailOf(s, device, ids[..n]) + if r.Some? then [Message(ids[n], r.value)] else []
  }

  function Unresolved(s: State, device: Id, ids: seq<Id>): seq<Id> {
    if ids == [] then []
    else
      var n := |ids| - 1;
      Unresolved(s, device, ids[..n]) + if Resolution(s, device, ids[n]).None? then [ids[n]] else []
  }

  function IdsOf(mail: seq<Message>): (ids: seq<Id>)
    ensures |ids| == |mail| && forall i :: 0 <= i < |ids| ==> ids[i] == mail[i].msgId
  {
    if mail == [] then [] else IdsOf(mail[..|mail| - 1]) + [mail[|mail| - 1].msgId]
  }

  lemma {:induction false} ServedIsMail(s: State, device: Id, ids: seq<Id>, cached: seq<Option<Id>>)
    requires |cached| == |ids| && forall i :: 0 <= i < |ids| ==> cached[i] == Cached(s.v, ids[i])
    ensures Served(ids, cached, RowsOf(s, device)) == MailOf(s, device, ids)
    ensures Dead(ids, cached, RowsOf(s, device)) == Unresolved(s, device, ids)
  {
    if ids != [] {
      var n := |ids| - 1;
      ServedIsMail(s, device, ids[..n], cached[..n]);
    }
  }

  /** The ids served and the ids found dead are all that were asked for, and no id is both. */
  lemma {:induction false} ServedAndDead(s: State, device: Id, ids: seq<Id>, x: Id)
    ensures x in IdsOf(MailOf(s, device, ids)) <==> x in ids && Resolution(s, device, x).Some?
    ensures x in Unresolved(s, device, ids) <==> x in ids && Resolution(s, device, x).None?
  {
    if ids != [] {
      var n := |ids| - 1;
      var r := Resolution(s, device, ids[n]);
      ServedAndDead(s, device, ids[..n], x);
      assert x in ids <==> x in ids[..n] || x == ids[n];
      if r.Some? {
        IdsOfSnoc(MailOf(s, device, ids[..n]), Message(ids[n], r.value));
      }
    }
  }

  lemma IdsOfSnoc(mail: seq<Message>, m: Message)
    ensures IdsOf(mail + [m]) == IdsOf(mail) + [m.msgId]
  {
    assert (mail + [m])[..|mail|] == mail;
  }

  lemma {:induction false} MailSame(s: State, s': State, device: Id, ids: seq<Id>)
    requires forall m :: Resolution(s', device, m) == Resolution(s, device, m)
    ensures MailOf(s', device, ids) == MailOf(s, device, ids)
  {
    if ids != [] {
      MailSame(s, s', device, ids[..|ids| - 1]);
    }
  }

  lemma {:induction false} MailAppend(s: State, device: Id, a: seq<Id>, b: seq<Id>)
    ensures MailOf(s, device, a + b) == MailOf(s, device, a) + MailOf(s, device, b)
  {
    if b == [] {
      assert a + b == a;
    } else {
      var n := |b| - 1;
      assert (a + b)[..|a + b| - 1] == a + b[..n];
      MailAppend(s, device, a, b[..n]);
    }
  }

  // ---------------------------------------------------------------- a request that runs to its end

  /** How many commands a request still has before it. */
  function Work(f: Frame): nat {
    match f
    case Enqueueing(mail) => |mail| + 1
    case Pulled(_, ids) => |ids| + 3
    case Looked(_, ids, _) => |ids| + 2
    case Dropping(_, dead) => |dead| + 1
    case Acking(_, ids, marks) => |ids| + |marks| + 2
    case Marking(_, marks) => |marks| + 1
  }

  lemma WorkShrinks(s: State, h: Id)
    requires h in s.frames
    ensures h in Continue(s, h).frames ==> Work(Continue(s, h).frames[h]) < Work(s.frames[h])
  {
  }

  /** The state when the request is through, if nothing else happens meanwhile. */
  function Complete(s: State, h: Id): State
    decreases if h in s.frames then Work(s.frames[h]) + 1 else 0
  {
    if h !in s.frames then s
    else
      WorkShrinks(s, h);
      Complete(Continue(s, h), h)
  }

  /** What acking, marking and dropping leave behind: ids are gone from one inbox, and little else has changed. */
  ghost predicate TakesOut(s: State, s': State, h: Id, device: Id, gone: seq<Id>) {
    && s'.frames == s.frames - {h} && s'.answers == s.answers && s'.messages == s.messages && s'.rows == s.rows
    && s'.unbacked == s.unbacked && s'.v.payloads == s.v.payloads && s'.v.now == s.v.now
    && forall d :: Inbox(s'.v, d) == if d == device then Without(Inbox(s.v, d), gone) else Inbox(s.v, d)
  }

  lemma {:induction false} MarkingCompletes(s: State, h: Id, device: Id, marks: seq<Id>)
    requires h in s.frames && s.frames[h] == Marking(device, marks)
    ensures TakesOut(s, Complete(s, h), h, device, [])
    decreases |marks|
  {
    if marks == [] {
      assert Complete(s, h) == Complete(Done(s, h), h) == Done(s, h);
    } else {
      MarkingCompletes(Continue(s, h), h, device, marks[1..]);
      assert (s.frames[h := Marking(device, marks[1..])]) - {h} == s.frames - {h};
    }
    forall d
      ensures Without(Inbox(s.v, d), []) == Inbox(s.v, d)
    {
      WithoutNothing(Inbox(s.v, d));
    }
  }

  /** Taking out one id and then others is taking out all of them. */
  lemma TakesOutMore(s: State, mid: State, s': State, h: Id, device: Id, ids: seq<Id>)
    requires ids != [] && h in s.frames && mid.frames - {h} == s.frames - {h}
    requires mid.v == Remove(s.v, device, ids[0])
    requires mid.answers == s.answers && mid.messages == s.messages && mid.rows == s.rows && mid.unbacked == s.unbacked
    requires TakesOut(mid, s', h, device, ids[1..])
    ensures TakesOut(s, s', h, device, ids)
  {
    assert mid.v.now == s.v.now && mid.v.payloads == s.v.payloads;
    forall d
      ensures Inbox(s'.v, d) == if d == device then Without(Inbox(s.v, d), ids) else Inbox(s.v, d)
    {
      RemoveOne(s.v, device, ids[0], d);
      WithoutTwice(Inbox(s.v, d), [ids[0]], ids[1..], ids);
    }
  }

  lemma {:induction false} DroppingCompletes(s: State, h: Id, device: Id, dead: seq<Id>)
    requires h in s.frames && s.frames[h] == Dropping(device, dead)
    ensures TakesOut(s, Complete(s, h), h, device, dead)
    decreases |dead|
  {
    if dead == [] {
      assert Complete(s, h) == Complete(Done(s, h), h) == Done(s, h);
      forall d
        ensures Without(Inbox(s.v, d), []) == Inbox(s.v, d)
      {
        WithoutNothing(Inbox(s.v, d));
      }
    } else {
      DroppingCompletes(Continue(s, h), h, device, dead[1..]);
      TakesOutMore(s, Continue(s, h), Complete(s, h), h, device, dead);
    }
  }

  lemma {:induction false} AckingCompletes(s: State, h: Id, device: Id, ids: seq<Id>, marks: seq<Id>)
    requires h in s.frames && s.frames[h] == Acking(device, ids, marks)
    ensures TakesOut(s, Complete(s, h), h, device, ids)
    decreases |ids|
  {
    if ids == [] {
      MarkingCompletes(Continue(s, h), h, device, marks);
      assert Continue(s, h).frames - {h} == s.frames - {h};
    } else {
      AckingCompletes(Continue(s, h), h, device, ids[1..], marks);
      TakesOutMore(s, Continue(s, h), Complete(s, h), h, device, ids);
    }
  }

  lemma {:induction false} RepopulateResolves(v: View, ids: seq<Id>, rows: map<Id, Id>, m: Id)
    ensures Resolve(Cached(Repopulate(v, ids, rows), m), RowOf(rows, m)) == Resolve(Cached(v, m), RowOf(rows, m))
  {
    RepopulateKeeps(v, ids, rows);
    if ids != [] {
      RepopulateKeeps(v, ids[1..], rows);
      RepopulateResolves(v, ids[1..], rows, m);
    }
  }

  function AskedFor(s: State, device: Id, limit: int): seq<Id> {
    Dedup(Head(Inbox(s.v, device), limit))
  }

  function AnswerTo(s: State, device: Id, limit: int): Answer {
    var ids := AskedFor(s, device, limit);
    Answer(device, ids, MailOf(s, device, ids), Unresolved(s, device, ids))
  }

  /** The state in which a pull has answered and is about to drop the dead ids. */
  function Replied(s: State, h: Id, device: Id, limit: int): State {
    var ids := AskedFor(s, device, limit);
    var v := Repopulate(s.v, Missing(ids, CachedAll(s.v, ids)), RowsOf(s, device));
    Wait(s.(v := v, answers := s.answers + [AnswerTo(s, device, limit)]), h,
         Dropping(device, AnswerTo(s, device, limit).dead))
  }

  lemma WaitAgain(s: State, h: Id, f: Frame, g: Frame)
    ensures Wait(Wait(s, h, f), h, g) == Wait(s, h, g)
  {
    assert s.frames[h := f][h := g] == s.frames[h := g];
  }

  lemma CompleteStep(s: State, h: Id)
    requires h in s.frames
    ensures Complete(s, h) == Complete(Continue(s, h), h)
  {
    WorkShrinks(s, h);
  }

  lemma PullLooks(s: State, h: Id, device: Id, limit: int)
    requires h !in s.frames
    ensures var ids := AskedFor(s, device, limit);
            Complete(Apply(s, Pull(h, device, limit)), h)
            == Complete(Wait(s, h, Looked(device, ids, CachedAll(s.v, ids))), h)
  {
    var ids := AskedFor(s, device, limit);
    CompleteStep(Wait(s, h, Pulled(device, ids)), h);
    WaitAgain(s, h, Pulled(device, ids), Looked(device, ids, CachedAll(s.v, ids)));
  }

  lemma LookReplies(s: State, h: Id, device: Id, limit: int)
    requires h !in s.frames
    ensures var ids := AskedFor(s, device, limit);
            Continue(Wait(s, h, Looked(device, ids, CachedAll(s.v, ids))), h) == Replied(s, h, device, limit)
  {
    var ids := AskedFor(s, device, limit);
    var looked := Looked(device, ids, CachedAll(s.v, ids));
    ServedIsMail(s, device, ids, CachedAll(s.v, ids));
    var answered := s.(v := Repopulate(s.v, Missing(ids, CachedAll(s.v, ids)), RowsOf(s, device)),
                       answers := s.answers + [AnswerTo(s, device, limit)]);
    WaitAgain(answered, h, looked, Dropping(device, AnswerTo(s, device, limit).dead));
  }

  lemma PullReplies(s: State, h: Id, device: Id, limit: int)
    requires h !in s.frames
    ensures Complete(Apply(s, Pull(h, device, limit)), h) == Complete(Replied(s, h, device, limit), h)
  {
    var ids := AskedFor(s, device, limit);
    PullLooks(s, h, device, limit);
    CompleteStep(Wait(s, h, Looked(device, ids, CachedAll(s.v, ids))), h);
    LookReplies(s, h, device, limit);
  }

  lemma WaitOut(s: State, h: Id, f: Frame)
    requires h !in s.frames
    ensures s.frames[h := f] - {h} == s.frames
  {
  }

  lemma RepliedDrops(s: State, h: Id, device: Id, limit: int)
    ensures var r := Replied(s, h, device, limit);
            TakesOut(r, Complete(r, h), h, device, AnswerTo(s, device, limit).dead)
  {
    DroppingCompletes(Replied(s, h, device, limit), h, device, AnswerTo(s, device, limit).dead);
  }

  lemma RepliedKeeps(s: State, h: Id, device: Id, limit: int)
    requires h !in s.frames
    ensures var r := Replied(s, h, device, limit);
            && r.frames - {h} == s.frames && Inbox(r.v, device) == Inbox(s.v, device)
            && r.answers == s.answers + [AnswerTo(s, device, limit)]
  {
    var ids := AskedFor(s, device, limit);
    var rows := RowsOf(s, device);
    RepopulateKeeps(s.v, Missing(ids, CachedAll(s.v, ids)), rows);
    WaitOut(s, h, Dropping(device, AnswerTo(s, device, limit).dead));
  }

  lemma RepliedResolves(s: State, h: Id, device: Id, limit: int, m: Id)
    ensures Resolution(Replied(s, h, device, limit), device, m) == Resolution(s, device, m)
  {
    var ids := AskedFor(s, device, limit);
    RepopulateResolves(s.v, Missing(ids, CachedAll(s.v, ids)), RowsOf(s, device), m);
  }

  lemma TakesOutResolves(s: State, s': State, h: Id, device: Id, gone: seq<Id>)
    requires TakesOut(s, s', h, device, gone)
    ensures forall m :: Resolution(s', device, m) == Resolution(s, device, m)
  {
    assert RowsOf(s', device) == RowsOf(s, device);
  }

  /**
   * A pull answers with the mail for the head of the inbox, takes the dead ids out, and resolves nothing differently.
   */
  lemma PullCompletes(s: State, h: Id, device: Id, limit: int)
    requires h !in s.frames
    ensures var s' := Complete(Apply(s, Pull(h, device, limit)), h);
            && s'.frames == s.frames && s'.answers == s.answers + [AnswerTo(s, device, limit)]
            && (forall m :: Resolution(s', device, m) == Resolution(s, device, m))
            && Inbox(s'.v, device) == Without(Inbox(s.v, device), AnswerTo(s, device, limit).dead)
  {
    var replied := Replied(s, h, device, limit);
    PullReplies(s, h, device, limit);
    RepliedDrops(s, h, device, limit);
    RepliedKeeps(s, h, device, limit);
    TakesOutResolves(replied, Complete(replied, h), h, device, AnswerTo(s, device, limit).dead);
    forall m
      ensures Resolution(replied, device, m) == Resolution(s, device, m)
    {
      RepliedResolves(s, h, device, limit, m);
    }
  }

  /** An ack takes exactly its ids out, and resolves nothing differently. */
  lemma AckCompletes(s: State, h: Id, device: Id, ids: seq<Id>)
    requires h !in s.frames
    ensures var s' := Complete(Apply(s, Ack(h, device, ids)), h);
            && s'.frames == s.frames && s'.answers == s.answers
            && (forall m :: Resolution(s', device, m) == Resolution(s, device, m))
            && Inbox(s'.v, device) == Without(Inbox(s.v, device), ids)
  {
    var s1 := Apply(s, Ack(h, device, ids));
    AckingCompletes(s1, h, device, ids, ids);
    assert s1.frames - {h} == s.frames;
    TakesOutResolves(s1, Complete(s1, h), h, device, ids);
    assert RowsOf(s1, device) == RowsOf(s, device);
  }

  // ---------------------------------------------------------------- rounds

  /** A pull, and an ack of what it returned, by a client that does nothing else meanwhile. */
  function Round(s: State, h: Id, device: Id, limit: int): State
    requires h !in s.frames
  {
    PullCompletes(s, h, device, limit);
    var pulled := Complete(Apply(s, Pull(h, device, limit)), h);
    var served := AnswerTo(s, device, limit).served;
    if served == [] then pulled else Complete(Apply(pulled, Ack(h, device, IdsOf(served))), h)
  }

  /** The inbox after a round. */
  function AfterRound(ids: seq<Id>, limit: int): seq<Id> {
    Without(ids, Head(ids, limit))
  }

  lemma HeadIsServedOrDead(s: State, device: Id, limit: int, x: Id)
    ensures x in Head(Inbox(s.v, device), limit)
       <==> x in AnswerTo(s, device, limit).dead || x in IdsOf(AnswerTo(s, device, limit).served)
  {
    ServedAndDead(s, device, AskedFor(s, device, limit), x);
  }

  /** A round answers the head of the inbox, takes exactly that out, and resolves nothing differently. */
  lemma RoundAnswersHead(s: State, h: Id, device: Id, limit: int)
    requires h !in s.frames
    ensures var s' := Round(s, h, device, limit);
            && s'.frames == s.frames && s'.answers == s.answers + [AnswerTo(s, device, limit)]
            && (forall m :: Resolution(s', device, m) == Resolution(s, device, m))
            && Inbox(s'.v, device) == AfterRound(Inbox(s.v, device), limit)
  {
    PullCompletes(s, h, device, limit);
    var pulled := Complete(Apply(s, Pull(h, device, limit)), h);
    var a := AnswerTo(s, device, limit);
    forall x
      ensures x in Head(Inbox(s.v, device), limit) <==> x in a.dead || x in IdsOf(a.served)
    {
      HeadIsServedOrDead(s, device, limit, x);
    }
    WithoutTwice(Inbox(s.v, device), a.dead, IdsOf(a.served), Head(Inbox(s.v, device), limit));
    if a.served == [] {
      WithoutNothing(Inbox(pulled.v, device));
    } else {
      AckCompletes(pulled, h, device, IdsOf(a.served));
    }
  }

  lemma {:induction false} WithoutAppend(a: seq<Id>, b: seq<Id>, gone: seq<Id>)
    ensures Without(a + b, gone) == Without(a, gone) + Without(b, gone)
  {
    if a == [] {
      assert a + b == b;
    } else {
      assert (a + b)[1..] == a[1..] + b;
      WithoutAppend(a[1..], b, gone);
    }
  }

  lemma {:induction false} WithoutShorter(ids: seq<Id>, gone: seq<Id>)
    ensures |Without(ids, gone)| <= |ids|
  {
    if ids != [] {
      WithoutShorter(ids[1..], gone);
    }
  }

  /** A round leaves the tail, without the ids that were at the head; an inbox that is not empty gets shorter. */
  lemma RoundLeavesTail(ids: seq<Id>, limit: int)
    ensures var head := Head(ids, limit);
            AfterRound(ids, limit) == Without(ids[|head|..], head)
    ensures ids != [] ==> |AfterRound(ids, limit)| < |ids|
  {
    var head := Head(ids, limit);
    assert ids == head + ids[|head|..];
    WithoutAppend(head, ids[|head|..], head);
    WithoutItself(head, head);
    WithoutShorter(ids[|head|..], head);
  }

  lemma RoundShrinks(s: State, h: Id, device: Id, limit: int)
    requires h !in s.frames && Inbox(s.v, device) != []
    ensures |Inbox(Round(s, h, device, limit).v, device)| < |Inbox(s.v, device)|
    ensures h !in Round(s, h, device, limit).frames
  {
    RoundAnswersHead(s, h, device, limit);
    RoundLeavesTail(Inbox(s.v, device), limit);
  }

  /** Rounds until the inbox is empty; `limits(k)` is the limit of round k. */
  function ReadAll(s: State, h: Id, device: Id, limits: nat -> int, k: nat): State
    requires h !in s.frames
    decreases |Inbox(s.v, device)|
  {
    if Inbox(s.v, device) == [] then s
    else
      RoundShrinks(s, h, device, limits(k));
      ReadAll(Round(s, h, device, limits(k)), h, device, limits, k + 1)
  }

  /** Everything in the answers, in the order it came. */
  function Received(answers: seq<Answer>): seq<Message> {
    if answers == [] then [] else Received(answers[..|answers| - 1]) + answers[|answers| - 1].served
  }

  lemma WithoutOne(x: Id, gone: seq<Id>)
    ensures Without([x], gone) == if x in gone then [] else [x]
  {
    assert [x][1..] == [];
  }

  lemma DedupSnoc(xs: seq<Id>, x: Id)
    ensures Dedup(xs + [x]) == if x in xs then Dedup(xs) else Dedup(xs) + [x]
  {
    assert (xs + [x])[..|xs + [x]| - 1] == xs;
  }

  lemma WithoutSnoc(ids: seq<Id>, x: Id, gone: seq<Id>)
    ensures Without(ids + [x], gone) == if x in gone then Without(ids, gone) else Without(ids, gone) + [x]
  {
    WithoutAppend(ids, [x], gone);
    WithoutOne(x, gone);
  }

  lemma Associate<T>(a: seq<T>, b: seq<T>, c: seq<T>)
    ensures a + b + c == a + (b + c)
  {
  }

  lemma DedupSplitNew(a: seq<Id>, init: seq<Id>, x: Id)
    requires Dedup(a + init) == Dedup(a) + Dedup(Without(init, a)) && x !in a
    ensures Dedup(a + init + [x]) == Dedup(a) + Dedup(Without(init, a) + [x])
  {
    var w := Without(init, a);
    WithoutKeeps(init, a);
    assert x in a + init <==> x in w;
    DedupSnoc(a + init, x);
    DedupSnoc(w, x);
    Associate(Dedup(a), Dedup(w), [x]);
  }

  lemma DedupSplitStep(a: seq<Id>, init: seq<Id>, x: Id)
    requires Dedup(a + init) == Dedup(a) + Dedup(Without(init, a))
    ensures Dedup(a + init + [x]) == Dedup(a) + Dedup(Without(init + [x], a))
  {
    WithoutSnoc(init, x, a);
    if x in a {
      DedupSnoc(a + init, x);
    } else {
      DedupSplitNew(a, init, x);
    }
  }

  /** First occurrences of a whole: those of its first part, then those of the rest that are new. */
  lemma {:induction false} DedupSplit(a: seq<Id>, b: seq<Id>)
    ensures Dedup(a + b) == Dedup(a) + Dedup(Without(b, a))
  {
    if b == [] {
      assert a + b == a;
    } else {
      var init, x := b[..|b| - 1], b[|b| - 1];
      assert b == init + [x];
      assert a + b == a + init + [x];
      DedupSplit(a, init);
      DedupSplitStep(a, init, x);
    }
  }

  /** The mail for an inbox is the mail for its head and then the mail for what a round leaves. */
  lemma MailSplits(s: State, device: Id, ids: seq<Id>, limit: int)
    ensures MailOf(s, device, Dedup(ids))
         == MailOf(s, device, Dedup(Head(ids, limit))) + MailOf(s, device, Dedup(AfterRound(ids, limit)))
  {
    var head := Head(ids, limit);
    RoundLeavesTail(ids, limit);
    assert ids == head + ids[|head|..];
    DedupSplit(head, ids[|head|..]);
    MailAppend(s, device, Dedup(head), Dedup(AfterRound(ids, limit)));
  }

  /**
   * With nobody else at work, rounds of pull and ack empty the inbox, and the client receives the message of
   * every id that resolves, exactly once and in the order in which the ids were enqueued, whatever the limits.
   */
  lemma {:induction false} RoundsDeliverAll(s: State, h: Id, device: Id, limits: nat -> int, k: nat)
    requires h !in s.frames
    ensures var s' := ReadAll(s, h, device, limits, k);
            && Inbox(s'.v, device) == [] && s'.frames == s.frames
            && Received(s'.answers) == Received(s.answers) + MailOf(s, device, Dedup(Inbox(s.v, device)))
    decreases |Inbox(s.v, device)|
  {
    var ids := Inbox(s.v, device);
    if ids == [] {
      assert MailOf(s, device, Dedup(ids)) == [];
    } else {
      var next := Round(s, h, device, limits(k));
      RoundShrinks(s, h, device, limits(k));
      RoundAnswersHead(s, h, device, limits(k));
      RoundsDeliverAll(next, h, device, limits, k + 1);
      MailSame(s, next, device, Dedup(Inbox(next.v, device)));
      MailSplits(s, device, ids, limits(k));
      ReceivedMore(s.answers, AnswerTo(s, device, limits(k)));
      Associate(Received(s.answers), MailOf(s, device, Dedup(Head(ids, limits(k)))),
                MailOf(s, device, Dedup(Inbox(next.v, device))));
    }
  }

  lemma ReceivedMore(answers: seq<Answer>, a: Answer)
    ensures Received(answers + [a]) == Received(answers) + a.served
  {
    assert (answers + [a])[..|answers|] == answers;
  }

  /** In a state of a run, with nothing enqueued for the device without a row, that is every id in the inbox. */
  lemma EveryIdIsDelivered(s: State, device: Id)
    requires RowsInv(s) && forall m :: (device, m) !in s.unbacked
    ensures IdsOf(MailOf(s, device, Dedup(Inbox(s.v, device)))) == Dedup(Inbox(s.v, device))
  {
    assert AllBacked(s, device, Inbox(s.v, device));
    AllResolve(s, device, Dedup(Inbox(s.v, device)));
  }

  lemma {:induction false} AllResolve(s: State, device: Id, ids: seq<Id>)
    requires forall m :: m in ids ==> (device, m) in s.rows && m in s.messages
    ensures IdsOf(MailOf(s, device, ids)) == ids
  {
    if ids != [] {
      var n := |ids| - 1;
      assert ids[n] in ids;
      AllResolve(s, device, ids[..n]);
      IdsOfSnoc(MailOf(s, device, ids[..n]), Message(ids[n], Resolution(s, device, ids[n]).value));
    }
  }

  // ---------------------------------------------------------------- they are runs

  ghost predicate LeadsTo(states: seq<State>, s: State, s': State) {
    Run(states) && states[0] == s && states[|states| - 1] == s'
  }

  lemma NoStep(s: State) returns (states: seq<State>)
    ensures LeadsTo(states, s, s)
  {
    states := [s];
  }

  lemma StepAndOn(s: State, e: Event, rest: seq<State>, s': State) returns (states: seq<State>)
    requires Enabled(s, e) && LeadsTo(rest, Apply(s, e), s')
    ensures LeadsTo(states, s, s')
  {
    states := [s] + rest;
    assert Next(s, rest[0]);
    forall i | 0 <= i < |states| - 1
      ensures StepAt(states, i)
    {
      assert i > 0 ==> StepAt(rest, i - 1);
    }
  }

  lemma Joined(a: seq<State>, b: seq<State>, s: State, mid: State, s': State) returns (states: seq<State>)
    requires LeadsTo(a, s, mid) && LeadsTo(b, mid, s')
    ensures LeadsTo(states, s, s')
  {
    states := a + b[1..];
    forall i | 0 <= i < |states| - 1
      ensures StepAt(states, i)
    {
      if i < |a| - 1 {
        assert StepAt(a, i);
      } else {
        assert StepAt(b, i - |a| + 1);
      }
    }
  }

  lemma {:induction false} CompleteIsRun(s: State, h: Id) returns (states: seq<State>)
    ensures LeadsTo(states, s, Complete(s, h))
    decreases if h in s.frames then Work(s.frames[h]) + 1 else 0
  {
    if h !in s.frames {
      states := NoStep(s);
    } else {
      WorkShrinks(s, h);
      var rest := CompleteIsRun(Continue(s, h), h);
      states := StepAndOn(s, Resume(h), rest, Complete(s, h));
    }
  }

  lemma RequestIsRun(s: State, e: Event) returns (states: seq<State>)
    requires (e.Pull? || e.Ack?) && Enabled(s, e)
    ensures LeadsTo(states, s, Complete(Apply(s, e), e.h))
  {
    var rest := CompleteIsRun(Apply(s, e), e.h);
    states := StepAndOn(s, e, rest, Complete(Apply(s, e), e.h));
  }

  lemma RoundIsRun(s: State, h: Id, device: Id, limit: int) returns (states: seq<State>)
    requires h !in s.frames
    ensures LeadsTo(states, s, Round(s, h, device, limit))
  {
    PullCompletes(s, h, device, limit);
    states := RequestIsRun(s, Pull(h, device, limit));
    var served := AnswerTo(s, device, limit).served;
    if served != [] {
      var pulled := Complete(Apply(s, Pull(h, device, limit)), h);
      var ack := RequestIsRun(pulled, Ack(h, device, IdsOf(served)));
      states := Joined(states, ack, s, pulled, Round(s, h, device, limit));
    }
  }

  /** Reading to the end is a run of the delivery machine. */
  lemma {:induction false} ReadAllIsRun(s: State, h: Id, device: Id, limits: nat -> int, k: nat)
    returns (states: seq<State>)
    requires h !in s.frames
    ensures LeadsTo(states, s, ReadAll(s, h, device, limits, k))
    decreases |Inbox(s.v, device)|
  {
    if Inbox(s.v, device) == [] {
      states := NoStep(s);
    } else {
      RoundShrinks(s, h, device, limits(k));
      var next := Round(s, h, device, limits(k));
      var first := RoundIsRun(s, h, device, limits(k));
      var rest := ReadAllIsRun(next, h, device, limits, k + 1);
      states := Joined(first, rest, s, next, ReadAll(s, h, device, limits, k));
    }
  }
}
