/**
 * The secret inbox (src/lib/secretInbox.ts): per-device lists, payload cache and seen markers in Redis, all of them
 * expiring.
 */
module SecretInbox {
  import opened Aead
  import opened Bytes

  // Devices, messages, payloads and requests in flight; times are in seconds.
  type Id = nat

  const INBOX_TTL := 604_800
  const MESSAGE_TTL_MIN := 60
  const MESSAGE_TTL_MAX := 604_800

  /** `resolveTtlSeconds`, for integers; `fallback` is the configured default. */
  function ResolveTtl(raw: Option<int>, fallback: int): int {
    Max(MESSAGE_TTL_MIN, Min(MESSAGE_TTL_MAX, if raw.Some? then raw.value else fallback))
  }

  datatype Envelope = Envelope(toDevice: Id, msgId: Id, payload: Id, ttl: Option<int>)

  /** A Redis key with its expiry: it is gone as soon as the clock reaches it. */
  datatype Expiring<T> = Expiring(value: T, expires: int)

  datatype View = View(lists: map<Id, Expiring<seq<Id>>>, seen: map<(Id, Id), int>, payloads: map<Id, Expiring<Id>>,
                       now: int)

  function Inbox(v: View, device: Id): seq<Id> {
    if device in v.lists && v.now < v.lists[device].expires then v.lists[device].value else []
  }

  predicate SeenNow(v: View, device: Id, msgId: Id) {
    (device, msgId) in v.seen && v.now < v.seen[(device, msgId)]
  }

  function Cached(v: View, msgId: Id): Option<Id> {
    if msgId in v.payloads && v.now < v.payloads[msgId].expires then Some(v.payloads[msgId].value) else None
  }

  /** `SET … NX EX ttl` of a payload. */
  function CachePayload(v: View, msgId: Id, payload: Id, ttl: int): View {
    if Cached(v, msgId).Some? then v else v.(payloads := v.payloads[msgId := Expiring(payload, v.now + ttl)])
  }

  /** `SET … NX EX ttl` of a seen marker. */
  function MarkSeen(v: View, device: Id, msgId: Id, ttl: int): View {
    if SeenNow(v, device, msgId) then v else v.(seen := v.seen[(device, msgId) := v.now + ttl])
  }

  /** The enqueue script: nothing happens to a pair that has been seen. The flag is its return value. */
  function Enqueue(v: View, device: Id, msgId: Id, payload: Id, ttl: int): (View, bool) {
    if SeenNow(v, device, msgId) then (v, false)
    else
      var cached := CachePayload(MarkSeen(v, device, msgId, INBOX_TTL), msgId, payload, ttl);
      (cached.(lists := v.lists[device := Expiring(Inbox(v, device) + [msgId], v.now + INBOX_TTL)]), true)
  }

  /**
   * An enqueue appends the id to its own device's inbox exactly when the pair has not been seen; the pair
   * has been seen afterwards, so that sending it again at once changes nothing.
   */
  lemma EnqueueIsIdempotent(v: View, device: Id, msgId: Id, payload: Id, ttl: int)
    requires ttl > 0
    ensures var (v', inserted) := Enqueue(v, device, msgId, payload, ttl);
            && inserted == !SeenNow(v, device, msgId)
            && Inbox(v', device) == Inbox(v, device) + (if inserted then [msgId] else [])
            && (forall d :: d != device ==> Inbox(v', d) == Inbox(v, d))
            && SeenNow(v', device, msgId)
            && (inserted ==> Cached(v', msgId) == if Cached(v, msgId).Some? then Cached(v, msgId) else Some(payload))
            && Enqueue(v', device, msgId, payload, ttl) == (v', false)
  {
  }

  function EnqueueAll(v: View, messages: seq<Envelope>, fallback: int): (View, seq<bool>) {
    if messages == [] then (v, [])
    else
      var init, last := EnqueueAll(v, messages[..|messages| - 1], fallback), messages[|messages| - 1];
      var r := Enqueue(init.0, last.toDevice, last.msgId, last.payload, ResolveTtl(last.ttl, fallback));
      (r.0, init.1 + [r.1])
  }

  /** All but the listed ids, in order. */
  function Without(ids: seq<Id>, gone: seq<Id>): seq<Id> {
    if ids == [] then []
    else if ids[0] in gone then Without(ids[1..], gone)
    else [ids[0]] + Without(ids[1..], gone)
  }

  /** `LREM key 0 element`. */
  function Remove(v: View, device: Id, msgId: Id): View {
    if device !in v.lists then v
    else
      var list := v.lists[device];
      v.(lists := v.lists[device := list.(value := Without(list.value, [msgId]))])
  }

  function RemoveAll(v: View, device: Id, ids: seq<Id>): View {
    if ids == [] then v else Remove(RemoveAll(v, device, ids[..|ids| - 1]), device, ids[|ids| - 1])
  }

  function MarkAllSeen(v: View, device: Id, ids: seq<Id>, ttl: int): View {
    if ids == [] then v else MarkSeen(MarkAllSeen(v, device, ids[..|ids| - 1], ttl), device, ids[|ids| - 1], ttl)
  }

  function PullLimit(limit: int): nat {
    Max(1, Min(200, limit))
  }

  /** `LRANGE key 0 limit-1`. */
  function Head(ids: seq<Id>, limit: int): seq<Id> {
    ids[..Min(|ids|, PullLimit(limit))]
  }

  // ---------------------------------------------------------------- what removals and marks add up to

  lemma {:induction false} WithoutNothing(ids: seq<Id>)
    ensures Without(ids, []) == ids
  {
    if ids != [] {
      WithoutNothing(ids[1..]);
    }
  }

  lemma {:induction false} WithoutKeeps(ids: seq<Id>, gone: seq<Id>)
    ensures forall x :: x in Without(ids, gone) <==> x in ids && x !in gone
  {
    if ids != [] {
      WithoutKeeps(ids[1..], gone);
    }
  }

  lemma {:induction false} WithoutTwice(ids: seq<Id>, a: seq<Id>, b: seq<Id>, c: seq<Id>)
    requires forall x :: x in c <==> x in a || x in b
    ensures Without(Without(ids, a), b) == Without(ids, c)
  {
    if ids != [] {
      WithoutTwice(ids[1..], a, b, c);
    }
  }

  lemma RemoveOne(v: View, device: Id, x: Id, d: Id)
    ensures Inbox(Remove(v, device, x), d) == if d == device then Without(Inbox(v, d), [x]) else Inbox(v, d)
  {
  }

  /** Removing ids one after the other takes all their occurrences out of that inbox, and touches no other. */
  lemma {:induction false} RemoveAllFromInbox(v: View, device: Id, gone: seq<Id>, d: Id)
    ensures Inbox(RemoveAll(v, device, gone), d) == if d == device then Without(Inbox(v, d), gone) else Inbox(v, d)
  {
    if gone == [] {
      WithoutNothing(Inbox(v, d));
    } else {
      var init, x := gone[..|gone| - 1], gone[|gone| - 1];
      RemoveAllFromInbox(v, device, init, d);
      assert gone == init + [x];
      WithoutTwice(Inbox(v, d), init, [x], gone);
      RemoveOne(RemoveAll(v, device, init), device, x, d);
    }
  }

  /** Only the pairs listed that had not been seen get a new marker. */
  lemma {:induction false} MarkAllMarks(v: View, device: Id, ids: seq<Id>, ttl: int, d: Id, m: Id)
    ensures var v' := MarkAllSeen(v, device, ids, ttl);
            && v'.now == v.now
            && (d == device && m in ids && !SeenNow(v, d, m) ==> (d, m) in v'.seen && v'.seen[(d, m)] == v.now + ttl)
            && (!(d == device && m in ids && !SeenNow(v, d, m)) ==>
                  ((d, m) in v'.seen <==> (d, m) in v.seen) && ((d, m) in v.seen ==> v'.seen[(d, m)] == v.seen[(d, m)]))
  {
    if ids != [] {
      var init, x := ids[..|ids| - 1], ids[|ids| - 1];
      MarkAllMarks(v, device, init, ttl, d, m);
      assert ids == init + [x];
    }
  }

  // ---------------------------------------------------------------- the library over a connection

  class Redis {
    var lists: map<Id, Expiring<seq<Id>>>
    var seen: map<(Id, Id), int>
    var payloads: map<Id, Expiring<Id>>

    function ViewAt(now: int): View
      reads this
    {
      View(lists, seen, payloads, now)
    }

    constructor ()
      ensures forall now :: ViewAt(now) == View(map[], map[], map[], now)
    {
      lists, seen, payloads := map[], map[], map[];
    }

    /** The Lua script. */
    method Eval(device: Id, msgId: Id, payload: Id, ttlSeconds: int, now: int) returns (inserted: bool)
      modifies this
      ensures (ViewAt(now), inserted) == Enqueue(old(ViewAt(now)), device, msgId, payload, ttlSeconds)
    {
      if SeenNow(ViewAt(now), device, msgId) {
        return false;
      }
      var before := Inbox(ViewAt(now), device);
      seen := seen[(device, msgId) := now + INBOX_TTL];
      if Cached(ViewAt(now), msgId).None? {
        payloads := payloads[msgId := Expiring(payload, now + ttlSeconds)];
      }
      lists := lists[device := Expiring(before + [msgId], now + INBOX_TTL)];
      inserted := true;
    }

    method EnqueueSecretMessages(messages: seq<Envelope>, fallback: int, now: int) returns (inserted: seq<bool>)
      modifies this
      ensures (ViewAt(now), inserted) == EnqueueAll(old(ViewAt(now)), messages, fallback)
    {
      inserted := [];
      for i := 0 to |messages|
        invariant (ViewAt(now), inserted) == EnqueueAll(old(ViewAt(now)), messages[..i], fallback)
      {
        var msg := messages[i];
        assert messages[..i + 1][..|messages[..i + 1]| - 1] == messages[..i];
        var ok := Eval(msg.toDevice, msg.msgId, msg.payload, ResolveTtl(msg.ttl, fallback), now);
        inserted := inserted + [ok];
      }
      assert messages[..|messages|] == messages;
    }

    method LRem(device: Id, msgId: Id, now: int)
      modifies this`lists
      ensures ViewAt(now) == Remove(old(ViewAt(now)), device, msgId)
    {
      if device in lists {
        lists := lists[device := lists[device].(value := Without(lists[device].value, [msgId]))];
      }
    }

    /** Every occurrence of the ids leaves this device's inbox, in whatever order they are given; other inboxes stay. */
    method AckSecretInbox(device: Id, msgIds: seq<Id>, now: int)
      modifies this`lists
      ensures ViewAt(now) == RemoveAll(old(ViewAt(now)), device, msgIds)
      ensures forall d :: Inbox(ViewAt(now), d) == if d == device then Without(old(Inbox(ViewAt(now), d)), msgIds)
                                                   else old(Inbox(ViewAt(now), d))
    {
      for i := 0 to |msgIds|
        invariant ViewAt(now) == RemoveAll(old(ViewAt(now)), device, msgIds[..i])
      {
        assert msgIds[..i + 1][..|msgIds[..i + 1]| - 1] == msgIds[..i];
        LRem(device, msgIds[i], now);
      }
      assert msgIds[..|msgIds|] == msgIds;
      ghost var before := old(ViewAt(now));
      forall d
        ensures Inbox(RemoveAll(before, device, msgIds), d)
             == if d == device then Without(Inbox(before, d), msgIds) else Inbox(before, d)
      {
        RemoveAllFromInbox(before, device, msgIds, d);
      }
    }

    /** The pairs that had not been seen are seen from now on; all other markers keep their time. */
    method MarkSecretSeen(device: Id, msgIds: seq<Id>, ttlSeconds: int, now: int)
      modifies this`seen
      ensures ViewAt(now) == MarkAllSeen(old(ViewAt(now)), device, msgIds, ttlSeconds)
      ensures forall d, m :: d == device && m in msgIds && !SeenNow(old(ViewAt(now)), d, m) ==>
                (d, m) in seen && seen[(d, m)] == now + ttlSeconds
      ensures forall d, m :: !(d == device && m in msgIds && !SeenNow(old(ViewAt(now)), d, m)) ==>
                ((d, m) in seen <==> (d, m) in old(seen)) && ((d, m) in seen ==> seen[(d, m)] == old(seen)[(d, m)])
    {
      for i := 0 to |msgIds|
        invariant ViewAt(now) == MarkAllSeen(old(ViewAt(now)), device, msgIds[..i], ttlSeconds)
      {
        assert msgIds[..i + 1][..|msgIds[..i + 1]| - 1] == msgIds[..i];
        if !SeenNow(ViewAt(now), device, msgIds[i]) {
          seen := seen[(device, msgIds[i]) := now + ttlSeconds];
        }
      }
      assert msgIds[..|msgIds|] == msgIds;
      ghost var before := old(ViewAt(now));
      forall d, m
        ensures d == device && m in msgIds && !SeenNow(before, d, m) ==>
                  (d, m) in seen && seen[(d, m)] == now + ttlSeconds
        ensures !(d == device && m in msgIds && !SeenNow(before, d, m)) ==>
                  && ((d, m) in seen <==> (d, m) in before.seen)
                  && ((d, m) in seen ==> seen[(d, m)] == before.seen[(d, m)])
      {
        MarkAllMarks(before, device, msgIds, ttlSeconds, d, m);
      }
    }
  }
}
