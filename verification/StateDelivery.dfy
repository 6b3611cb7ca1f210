/**
 * Latest-only State delivery (src/ESPressio_ESPNowStateTransport.hpp:149-167, 255-364, 380-442,
 * 452-464): one publisher, its bounded table of unacknowledged updates, subscribers whose
 * stores only move forward, and a network that loses, repeats and reorders. Values and their
 * encodings are outside the model; a version stands for the value published with it.
 */
module StateDelivery {
  import opened Bytes
  import opened Tables

  const RETRY_WRAP: nat := 0x1_0000_0000_0000_0000

  datatype Version = Version(epoch: nat, revision: nat)

  predicate AtMost(a: Version, b: Version) {
    a.epoch < b.epoch || (a.epoch == b.epoch && a.revision <= b.revision)
  }

  /** A subscriber and a state type. */
  datatype Key = Key(device: Addr, kind: nat)

  datatype Pending = Pending(key: Key, version: Version, last: nat)

  /** `queued` is the newest version an update was queued with; `waived` are keys given up since. */
  datatype State = State(
    current: map<nat, Version>, slots: seq<Option<Pending>>, subscribers: set<Key>,
    updates: set<(Key, Version)>, acks: set<(Key, Version)>, store: map<Key, Version>,
    queued: map<Key, Version>, waived: set<Key>)

  function Initial(size: nat): State {
    State(map[], seq(size, _ => None), {}, {}, {}, map[], map[], {})
  }

  function RecordIs(k: Key): Option<Pending> -> bool { (r: Option<Pending>) => r.Some? && r.value.key == k }
  function Unused(): Option<Pending> -> bool { (r: Option<Pending>) => r.None? }

  /** `PendingLocked` with `create`: the record of `k`, else the first free one, else the table size. */
  function SlotFor(slots: seq<Option<Pending>>, k: Key): (at: nat)
    ensures at <= |slots|
  {
    var own := First(slots, RecordIs(k));
    if own < |slots| then own else First(slots, Unused())
  }

  /** How a snapshot, its encoding and its send turn out, and the clock read in between. */
  datatype Attempt = Attempt(encodes: bool, sends: bool, now: nat)

  datatype Outcome = Outcome(state: State, ok: bool)

  /** `QueueSnapshotByType` and `QueueUpdate`. */
  function Queue(s: State, k: Key, a: Attempt): (r: Outcome)
    ensures |r.state.slots| == |s.slots|
  {
    if k.kind !in s.current || !a.encodes then Outcome(s, false)
    else
      var v, at := s.current[k.kind], SlotFor(s.slots, k);
      if at == |s.slots| then Outcome(s.(queued := s.queued[k := v], waived := s.waived + {k}), false)
      else
        var t := s.(slots := s.slots[at := Some(Pending(k, v, a.now))], queued := s.queued[k := v],
                    waived := s.waived - {k});
        Outcome(if a.sends then t.(updates := t.updates + {(k, v)}) else t, a.sends)
  }

  /** A record is cleared and its key given up. */
  function Discard(s: State, at: nat, k: Key): State
    requires at < |s.slots|
  {
    s.(slots := s.slots[at := None], waived := s.waived + {k})
  }

  /** Unsigned 64-bit subtraction of times. */
  function Elapsed(now: nat, last: nat): nat { (now - last) % RETRY_WRAP }

  /** One record of `Maintain`. */
  function MaintainOne(s: State, at: nat, now: nat, interval: nat, a: Attempt): State
    requires at < |s.slots|
  {
    if s.slots[at].None? then s
    else
      var r := s.slots[at].value;
      if r.key !in s.subscribers then Discard(s, at, r.key)
      else if Elapsed(now, r.last) < interval then s
      else
        var q := Queue(s, r.key, a);
        if q.ok then q.state else Discard(q.state, at, r.key)
  }

  /** The first `n` records of `Maintain`. */
  function MaintainFirst(s: State, n: nat, now: nat, interval: nat, attempts: nat -> Attempt): (t: State)
    requires n <= |s.slots|
    ensures |t.slots| == |s.slots|
  {
    if n == 0 then s
    else
      MaintainOne(MaintainFirst(s, n - 1, now, interval, attempts), n - 1, now, interval, attempts(n - 1))
  }

  /** `ClearPendingState` */
  function ClearKey(s: State, k: Key): State {
    var at := First(s.slots, RecordIs(k));
    s.(slots := if at < |s.slots| then s.slots[at := None] else s.slots, waived := s.waived + {k})
  }

  function WithoutDevice(slots: seq<Option<Pending>>, d: Addr): (r: seq<Option<Pending>>)
    ensures |r| == |slots|
    ensures forall i :: 0 <= i < |r| ==>
              r[i] == if slots[i].Some? && slots[i].value.key.device == d then None else slots[i]
  {
    seq(|slots|, i requires 0 <= i < |slots| =>
      if slots[i].Some? && slots[i].value.key.device == d then None else slots[i])
  }

  /** `HandleAcknowledgement` */
  function AfterAck(slots: seq<Option<Pending>>, k: Key, v: Version): seq<Option<Pending>> {
    var at := First(slots, RecordIs(k));
    if at == |slots| then slots
    else
      var p := slots[at].value;
      if v.epoch != p.version.epoch || v.revision < p.version.revision then slots else slots[at := None]
  }

  datatype Step =
    | Publish(kind: nat, version: Version)
    | Enqueue(key: Key, attempt: Attempt)
    | Subscribe(key: Key, attempt: Attempt)
    | Unsubscribe(key: Key)
    | Leave(device: Addr)
    | Arrive(update: (Key, Version), subscribed: bool, applies: bool, acknowledges: bool)
    | Acknowledge(ack: (Key, Version))
    | Maintain(now: nat, interval: nat, attempts: nat -> Attempt)

  /** The store takes a newer version, or already has this one. */
  predicate Takes(store: map<Key, Version>, k: Key, v: Version, applies: bool) {
    (k in store && store[k] == v) || (applies && (k !in store || (AtMost(store[k], v) && store[k] != v)))
  }

  function Apply(s: State, step: Step): State {
    match step
    case Publish(kind, v) =>
      if kind in s.current && (!AtMost(s.current[kind], v) || v == s.current[kind]) then s
      else s.(current := s.current[kind := v])
    case Enqueue(k, a) => Queue(s, k, a).state
    case Subscribe(k, a) => Queue(s.(subscribers := s.subscribers + {k}), k, a).state
    case Unsubscribe(k) => ClearKey(s.(subscribers := s.subscribers - {k}), k)
    case Leave(d) =>
      s.(subscribers := (set k | k in s.subscribers && k.device != d), slots := WithoutDevice(s.slots, d),
         waived := s.waived + (set k | k in s.queued && k.device == d))
    case Arrive(u, subscribed, applies, acknowledges) =>
      if u !in s.updates || !subscribed || !Takes(s.store, u.0, u.1, applies) then s
      else
        var t := s.(store := s.store[u.0 := u.1]);
        if acknowledges then t.(acks := t.acks + {u}) else t
    case Acknowledge(ack) => if ack in s.acks then s.(slots := AfterAck(s.slots, ack.0, ack.1)) else s
    case Maintain(now, interval, attempts) => MaintainFirst(s, |s.slots|, now, interval, attempts)
  }

  function Run(size: nat, steps: seq<Step>): State {
    if steps == [] then Initial(size) else Apply(Run(size, steps[..|steps| - 1]), steps[|steps| - 1])
  }

  // ---------------------------------------------------------------- what every step keeps

  ghost predicate Has(slots: seq<Option<Pending>>, k: Key) { exists i :: 0 <= i < |slots| && RecordIs(k)(slots[i]) }

  /** One record per key, carrying the newest queued version. */
  ghost predicate SlotsOk(s: State) {
    && (forall i, j :: 0 <= i < j < |s.slots| && s.slots[i].Some? ==> !RecordIs(s.slots[i].value.key)(s.slots[j]))
    && forall i :: 0 <= i < |s.slots| && s.slots[i].Some? ==>
         s.slots[i].value.key in s.queued && s.slots[i].value.version == s.queued[s.slots[i].value.key]
  }

  /** Nothing on the air or in a store is newer than what was queued, and nothing queued than what is current. */
  ghost predicate Ordered(s: State) {
    && (forall k :: k in s.queued ==> k.kind in s.current && AtMost(s.queued[k], s.current[k.kind]))
    && (forall u :: u in s.updates ==> u.0 in s.queued && AtMost(u.1, s.queued[u.0]))
    && (forall k :: k in s.store ==> k in s.queued && AtMost(s.store[k], s.queued[k]))
    && forall a :: a in s.acks ==> a.0 in s.store && AtMost(a.1, s.store[a.0])
  }

  /** The subscriber holds the newest queued version. */
  ghost predicate Held(s: State, k: Key) { k in s.queued && k in s.store && s.store[k] == s.queued[k] }

  /** A subscriber holds the newest queued version or it is pending, unless it was given up. */
  ghost predicate Delivered(s: State) {
    forall k :: k in s.queued && k !in s.waived ==> Has(s.slots, k) || Held(s, k)
  }

  /** Nothing will be retried for a key that was given up. */
  ghost predicate Abandoned(s: State) { forall k :: k in s.waived ==> !Has(s.slots, k) }

  ghost predicate Inv(s: State) { SlotsOk(s) && Ordered(s) && Delivered(s) && Abandoned(s) }

  lemma Reflexive(a: Version)
    ensures AtMost(a, a)
  {
  }

  lemma Antisymmetric(a: Version, b: Version)
    requires AtMost(a, b) && AtMost(b, a)
    ensures a == b
  {
  }

  lemma SlotForFits(slots: seq<Option<Pending>>, k: Key)
    ensures var at := SlotFor(slots, k);
            && (at < |slots| ==> slots[at].None? || slots[at].value.key == k)
            && (at < |slots| && slots[at].None? ==> !Has(slots, k))
            && (at == |slots| ==> !Has(slots, k))
  {
  }

  lemma HasAfterPut(slots: seq<Option<Pending>>, at: nat, p: Pending, k: Key)
    requires at < |slots| && (slots[at].None? || slots[at].value.key == p.key)
    ensures Has(slots[at := Some(p)], k) <==> Has(slots, k) || k == p.key
  {
    var r := slots[at := Some(p)];
    assert RecordIs(p.key)(r[at]);
    if Has(slots, k) && k != p.key {
      var i :| 0 <= i < |slots| && RecordIs(k)(slots[i]);
      assert RecordIs(k)(r[i]);
    }
    if Has(r, k) && k != p.key {
      var i :| 0 <= i < |r| && RecordIs(k)(r[i]);
      assert RecordIs(k)(slots[i]);
    }
  }

  lemma HasAfterClear(slots: seq<Option<Pending>>, at: nat, k: Key)
    requires at < |slots| && slots[at].Some?
    ensures Has(slots, k) && k != slots[at].value.key ==> Has(slots[at := None], k)
    ensures Has(slots[at := None], k) ==> Has(slots, k)
  {
    var r := slots[at := None];
    if Has(slots, k) && k != slots[at].value.key {
      var i :| 0 <= i < |slots| && RecordIs(k)(slots[i]);
      assert RecordIs(k)(r[i]);
    }
    if Has(r, k) {
      var i :| 0 <= i < |r| && RecordIs(k)(r[i]);
      assert RecordIs(k)(slots[i]);
    }
  }

  /** Clearing its one record leaves a key none. */
  lemma ClearedHasNone(s: State, at: nat)
    requires SlotsOk(s) && at < |s.slots| && s.slots[at].Some?
    ensures !Has(s.slots[at := None], s.slots[at].value.key)
  {
    var k, r := s.slots[at].value.key, s.slots[at := None];
    assert RecordIs(k)(s.slots[at]);
    forall i | 0 <= i < |r| ensures !RecordIs(k)(r[i]) {
      if i != at && s.slots[i].Some? {
        assert !RecordIs(s.slots[i].value.key)(s.slots[at]) || !RecordIs(k)(s.slots[i]);
      }
    }
  }

  lemma QueueSlots(s: State, k: Key, a: Attempt)
    requires Inv(s)
    ensures SlotsOk(Queue(s, k, a).state)
  {
    hide Ordered, Delivered, SlotFor;
    if k.kind in s.current && a.encodes {
      SlotForFits(s.slots, k);
      var at := SlotFor(s.slots, k);
      if at == |s.slots| || s.slots[at].None? {
        forall i | 0 <= i < |s.slots| && s.slots[i].Some? ensures s.slots[i].value.key != k {
          assert RecordIs(k)(s.slots[i]) <==> s.slots[i].value.key == k;
        }
      }
    }
  }

  lemma QueueOrdered(s: State, k: Key, a: Attempt)
    requires Ordered(s)
    ensures Ordered(Queue(s, k, a).state)
  {
    hide SlotFor, AtMost;
    if k.kind in s.current {
      var v := s.current[k.kind];
      assert AtMost(v, v) by { Reflexive(v); }
      forall x | k in s.queued && AtMost(x, s.queued[k]) ensures AtMost(x, v) {
        Transitive(x, s.queued[k], v);
      }
    }
  }

  lemma QueueDelivered(s: State, k: Key, a: Attempt)
    requires Inv(s)
    ensures Delivered(Queue(s, k, a).state)
  {
    hide Ordered, SlotFor, Has;
    if k.kind in s.current && a.encodes {
      SlotForFits(s.slots, k);
      var at := SlotFor(s.slots, k);
      var t := Queue(s, k, a).state;
      forall x | x in t.queued && x !in t.waived ensures Has(t.slots, x) || Held(t, x) {
        if at < |s.slots| { HasAfterPut(s.slots, at, Pending(k, s.current[k.kind], a.now), x); }
      }
    }
  }

  lemma QueueAbandoned(s: State, k: Key, a: Attempt)
    requires Inv(s)
    ensures Abandoned(Queue(s, k, a).state)
  {
    hide Ordered, Delivered, SlotFor, Has;
    if k.kind in s.current && a.encodes {
      SlotForFits(s.slots, k);
      var at := SlotFor(s.slots, k);
      var t := Queue(s, k, a).state;
      forall x | x in t.waived ensures !Has(t.slots, x) {
        if at < |s.slots| { HasAfterPut(s.slots, at, Pending(k, s.current[k.kind], a.now), x); }
      }
    }
  }

  lemma QueueKeeps(s: State, k: Key, a: Attempt)
    requires Inv(s)
    ensures Inv(Queue(s, k, a).state)
  {
    hide SlotsOk, Ordered, Delivered, Abandoned, SlotFor;
    QueueSlots(s, k, a);
    QueueOrdered(s, k, a);
    QueueDelivered(s, k, a);
    QueueAbandoned(s, k, a);
  }

  lemma DiscardKeeps(s: State, at: nat, k: Key)
    requires Inv(s) && at < |s.slots| && s.slots[at].Some? && s.slots[at].value.key == k
    ensures Inv(Discard(s, at, k))
  {
    hide Has;
    ClearedHasNone(s, at);
    forall x
      ensures Has(s.slots, x) && x != k ==> Has(s.slots[at := None], x)
      ensures Has(s.slots[at := None], x) ==> Has(s.slots, x)
    {
      HasAfterClear(s.slots, at, x);
    }
  }

  /** Queueing for a key leaves its own record its own. */
  lemma QueueOwn(s: State, k: Key, a: Attempt, at: nat)
    requires Inv(s) && at < |s.slots| && RecordIs(k)(s.slots[at])
    ensures RecordIs(k)(Queue(s, k, a).state.slots[at])
  {
    hide Ordered, Delivered;
  }

  lemma MaintainOneKeeps(s: State, at: nat, now: nat, interval: nat, a: Attempt)
    requires Inv(s) && at < |s.slots|
    ensures Inv(MaintainOne(s, at, now, interval, a)) && |MaintainOne(s, at, now, interval, a).slots| == |s.slots|
  {
    hide Inv, Queue;
    if s.slots[at].Some? {
      var k := s.slots[at].value.key;
      DiscardKeeps(s, at, k);
      QueueKeeps(s, k, a);
      QueueOwn(s, k, a, at);
      DiscardKeeps(Queue(s, k, a).state, at, k);
    }
  }

  lemma {:induction false} MaintainKeeps(s: State, n: nat, now: nat, interval: nat, attempts: nat -> Attempt)
    requires Inv(s) && n <= |s.slots|
    ensures Inv(MaintainFirst(s, n, now, interval, attempts))
  {
    hide Inv, MaintainOne;
    if n > 0 {
      MaintainKeeps(s, n - 1, now, interval, attempts);
      MaintainOneKeeps(MaintainFirst(s, n - 1, now, interval, attempts), n - 1, now, interval, attempts(n - 1));
    }
  }

  lemma ArriveKeeps(s: State, step: Step)
    requires Inv(s) && step.Arrive?
    ensures Inv(Apply(s, step))
  {
    hide Has, SlotsOk;
    var (k, v) := step.update;
    var t := Apply(s, step);
    if t.store != s.store {
      assert AtMost(v, s.queued[k]);
      if k in s.store && s.store[k] == s.queued[k] { Antisymmetric(v, s.queued[k]); }
    }
    assert SlotsOk(t) by { SameSlots(s, t); }
  }

  lemma SameSlots(s: State, t: State)
    requires SlotsOk(s) && t.slots == s.slots && t.queued == s.queued
    ensures SlotsOk(t)
  {
  }

  /** An acknowledgement clears a record only when its subscriber holds that version. */
  lemma AcknowledgeKeeps(s: State, ack: (Key, Version))
    requires Inv(s)
    ensures Inv(Apply(s, Acknowledge(ack)))
    ensures var at := First(s.slots, RecordIs(ack.0));
            Apply(s, Acknowledge(ack)) != s ==>
              (at < |s.slots| && ack.0 in s.store && s.store[ack.0] == s.slots[at].value.version == s.queued[ack.0])
  {
    hide Has;
    var t, at := Apply(s, Acknowledge(ack)), First(s.slots, RecordIs(ack.0));
    if t != s {
      assert AtMost(s.queued[ack.0], ack.1);
      Transitive(s.queued[ack.0], ack.1, s.store[ack.0]);
      Antisymmetric(s.queued[ack.0], s.store[ack.0]);
      forall k
        ensures Has(s.slots, k) && k != s.slots[at].value.key ==> Has(s.slots[at := None], k)
        ensures Has(s.slots[at := None], k) ==> Has(s.slots, k)
      {
        HasAfterClear(s.slots, at, k);
      }
    }
  }

  lemma Transitive(a: Version, b: Version, c: Version)
    requires AtMost(a, b) && AtMost(b, c)
    ensures AtMost(a, c)
  {
  }

  lemma ClearKeeps(s: State, k: Key)
    requires Inv(s)
    ensures Inv(ClearKey(s, k))
  {
    var at := First(s.slots, RecordIs(k));
    if at < |s.slots| {
      hide Inv;
      assert Discard(s, at, k) == ClearKey(s, k);
      DiscardKeeps(s, at, k);
    } else {
      assert !Has(s.slots, k);
    }
  }

  lemma LeaveKeeps(s: State, d: Addr)
    requires Inv(s)
    ensures Inv(Apply(s, Leave(d)))
  {
    var t := Apply(s, Leave(d));
    forall k: Key | k.device != d && Has(s.slots, k) ensures Has(t.slots, k) {
      var i :| 0 <= i < |s.slots| && RecordIs(k)(s.slots[i]);
      assert RecordIs(k)(t.slots[i]);
    }
    forall k | Has(t.slots, k) ensures Has(s.slots, k) && k.device != d {
      var i :| 0 <= i < |t.slots| && RecordIs(k)(t.slots[i]);
      assert RecordIs(k)(s.slots[i]);
    }
    hide Has;
  }

  lemma PublishKeeps(s: State, kind: nat, v: Version)
    requires Inv(s)
    ensures Inv(Apply(s, Publish(kind, v)))
  {
    hide Has;
    forall k | k in s.queued && k.kind == kind && AtMost(s.current[kind], v) ensures AtMost(s.queued[k], v) {
      Transitive(s.queued[k], s.current[kind], v);
    }
  }

  lemma SubscribersFree(s: State, subscribers: set<Key>)
    requires Inv(s)
    ensures Inv(s.(subscribers := subscribers))
  {
  }

  lemma StepKeeps(s: State, step: Step)
    requires Inv(s)
    ensures Inv(Apply(s, step))
  {
    hide Inv, Queue, ClearKey, MaintainFirst;
    match step
    case Publish(kind, v) => PublishKeeps(s, kind, v);
    case Enqueue(k, a) => QueueKeeps(s, k, a);
    case Subscribe(k, a) =>
      SubscribersFree(s, s.subscribers + {k});
      QueueKeeps(s.(subscribers := s.subscribers + {k}), k, a);
    case Unsubscribe(k) =>
      SubscribersFree(s, s.subscribers - {k});
      ClearKeeps(s.(subscribers := s.subscribers - {k}), k);
    case Leave(d) => LeaveKeeps(s, d);
    case Arrive(_, _, _, _) => ArriveKeeps(s, step);
    case Acknowledge(ack) => AcknowledgeKeeps(s, ack);
    case Maintain(now, interval, attempts) => MaintainKeeps(s, |s.slots|, now, interval, attempts);
  }

  lemma {:induction false} RunKeeps(size: nat, steps: seq<Step>)
    ensures Inv(Run(size, steps))
  {
    if steps != [] {
      hide Apply;
      RunKeeps(size, steps[..|steps| - 1]);
      StepKeeps(Run(size, steps[..|steps| - 1]), steps[|steps| - 1]);
    }
  }

  /**
   * State delivery. In every run each subscriber and type has at most one pending record,
   * which carries the newest queued version, and that version is pending or held by the
   * subscriber exactly when the key has not been given up or the subscriber holds it already.
   * `GivenUpExactly` says when a key is given up.
   */
  lemma NewestHeldOrPending(size: nat, steps: seq<Step>, k: Key, i: nat, j: nat)
    requires k in Run(size, steps).queued
    ensures var s := Run(size, steps);
            && (Has(s.slots, k) || Held(s, k) <==> k !in s.waived || Held(s, k))
            && (Has(s.slots, k) ==> k !in s.waived)
            && (i < |s.slots| && RecordIs(k)(s.slots[i]) ==> s.slots[i].value.version == s.queued[k])
            && (i < |s.slots| && j < |s.slots| && RecordIs(k)(s.slots[i]) && RecordIs(k)(s.slots[j]) ==> i == j)
  {
    hide Run, Has;
    RunKeeps(size, steps);
  }

  // ---------------------------------------------------------------- when a key is given up

  /** The guard of one record of `Maintain`: subscribed, and not due or retried with success. */
  predicate Survives(s: State, r: Pending, now: nat, interval: nat, a: Attempt) {
    && r.key in s.subscribers
    && (Elapsed(now, r.last) < interval || (r.key.kind in s.current && a.encodes && a.sends))
  }

  /** One record of `Maintain` is kept exactly under its guard; no other record is touched. */
  lemma MaintainOneExact(s: State, at: nat, now: nat, interval: nat, a: Attempt)
    requires Inv(s) && at < |s.slots| && s.slots[at].Some?
    ensures var t, r := MaintainOne(s, at, now, interval, a), s.slots[at].value;
            && |t.slots| == |s.slots| && t.subscribers == s.subscribers && t.current == s.current
            && (forall j :: 0 <= j < |s.slots| && j != at ==> t.slots[j] == s.slots[j])
            && (t.slots[at].Some? <==> Survives(s, r, now, interval, a))
            && (t.slots[at].Some? ==> t.slots[at].value.key == r.key)
            && (forall k :: k in t.waived <==> k in s.waived || (k == r.key && !Survives(s, r, now, interval, a)))
  {
    hide Ordered, Delivered, Has, SlotFor;
    var k := s.slots[at].value.key;
    OwnSlot(s, at);
    assert k !in s.waived by { PendingNotWaived(s, at); }
  }

  lemma OwnSlot(s: State, at: nat)
    requires SlotsOk(s) && at < |s.slots| && s.slots[at].Some?
    ensures SlotFor(s.slots, s.slots[at].value.key) == at
  {
    FirstIs(s.slots, RecordIs(s.slots[at].value.key), at);
  }

  lemma PendingNotWaived(s: State, at: nat)
    requires Abandoned(s) && at < |s.slots| && s.slots[at].Some?
    ensures s.slots[at].value.key !in s.waived
  {
    assert RecordIs(s.slots[at].value.key)(s.slots[at]);
  }

  /** Record `at` is dropped by this maintenance. */
  predicate Drops(s: State, at: nat, now: nat, interval: nat, attempts: nat -> Attempt)
    requires at < |s.slots|
  {
    s.slots[at].Some? && !Survives(s, s.slots[at].value, now, interval, attempts(at))
  }

  /** `Maintain` as a whole: each record by its own guard, each dropped key given up, no other. */
  lemma {:induction false} MaintainExact(s: State, n: nat, now: nat, interval: nat, attempts: nat -> Attempt)
    requires Inv(s) && n <= |s.slots|
    ensures var t := MaintainFirst(s, n, now, interval, attempts);
            && t.subscribers == s.subscribers && t.current == s.current
            && (forall j :: n <= j < |s.slots| ==> t.slots[j] == s.slots[j])
            && (forall j :: 0 <= j < n ==>
                  (t.slots[j].Some? <==> s.slots[j].Some? && !Drops(s, j, now, interval, attempts)))
            && forall k :: k in t.waived <==>
                 k in s.waived
                 || exists j :: 0 <= j < n && RecordIs(k)(s.slots[j]) && Drops(s, j, now, interval, attempts)
  {
    hide Inv, MaintainOne, Elapsed;
    if n > 0 {
      MaintainExact(s, n - 1, now, interval, attempts);
      MaintainKeeps(s, n - 1, now, interval, attempts);
      var u := MaintainFirst(s, n - 1, now, interval, attempts);
      if u.slots[n - 1].Some? {
        MaintainOneExact(u, n - 1, now, interval, attempts(n - 1));
      } else {
        assert MaintainOne(u, n - 1, now, interval, attempts(n - 1)) == u by {
          MaintainNothing(u, n - 1, now, interval, attempts(n - 1));
        }
      }
    }
  }

  lemma MaintainNothing(s: State, at: nat, now: nat, interval: nat, a: Attempt)
    requires at < |s.slots| && s.slots[at].None?
    ensures MaintainOne(s, at, now, interval, a) == s
  {
  }

  /** An update that finds neither a record of its key nor a free one. */
  predicate FindsNoSlot(s: State, k: Key, a: Attempt) {
    k.kind in s.current && a.encodes && SlotFor(s.slots, k) == |s.slots|
  }

  /** The step gives `k` up: what a caller can see before the call. */
  ghost predicate GivesUp(s: State, step: Step, k: Key) {
    match step
    case Enqueue(x, a) => x == k && FindsNoSlot(s, k, a)
    case Subscribe(x, a) => x == k && FindsNoSlot(s, k, a)
    case Unsubscribe(x) => x == k
    case Leave(d) => k.device == d && k in s.queued
    case Maintain(now, interval, attempts) =>
      exists j :: 0 <= j < |s.slots| && RecordIs(k)(s.slots[j]) && Drops(s, j, now, interval, attempts)
    case _ => false
  }

  /** The step puts `k` back: an update for it finds a record. */
  predicate TakesUp(s: State, step: Step, k: Key) {
    && (step.Enqueue? || step.Subscribe?) && step.key == k
    && k.kind in s.current && step.attempt.encodes && SlotFor(s.slots, k) < |s.slots|
  }

  /**
   * A key is given up exactly by a step under these guards (its subscriber leaves, the table
   * is full, or a retry that is due is not made) and taken up again exactly by an update
   * that finds a record.
   */
  lemma GivenUpExactly(s: State, step: Step, k: Key)
    requires Inv(s)
    ensures k in Apply(s, step).waived <==> GivesUp(s, step, k) || (k in s.waived && !TakesUp(s, step, k))
  {
    hide Inv, SlotFor, Drops, MaintainFirst;
    match step
    case Maintain(now, interval, attempts) => MaintainExact(s, |s.slots|, now, interval, attempts);
    case _ =>
  }

  /**
   * A retry that cannot be sent loses the update: for every pending record whose subscriber
   * does not hold the newest version, due and refused by the radio, maintenance leaves the
   * key subscribed with nothing pending and the subscriber behind.
   */
  lemma RefusedRetryLosesUpdate(s: State, at: nat, now: nat, interval: nat, attempts: nat -> Attempt)
    requires Inv(s) && at < |s.slots| && s.slots[at].Some?
    requires var r := s.slots[at].value;
             r.key in s.subscribers && !Held(s, r.key) && Elapsed(now, r.last) >= interval && !attempts(at).sends
    ensures var t, k := Apply(s, Maintain(now, interval, attempts)), s.slots[at].value.key;
            k in t.subscribers && k in t.queued && !Has(t.slots, k) && !Held(t, k)
  {
    hide Has, MaintainFirst, Elapsed, AtMost;
    MaintainKeeps(s, |s.slots|, now, interval, attempts);
    MaintainExact(s, |s.slots|, now, interval, attempts);
    MaintainQueues(s, |s.slots|, now, interval, attempts);
    var t, k := Apply(s, Maintain(now, interval, attempts)), s.slots[at].value.key;
    assert RecordIs(k)(s.slots[at]) && Drops(s, at, now, interval, attempts);
    if k in s.store && s.store[k] == t.queued[k] { Antisymmetric(s.store[k], s.queued[k]); }
  }

  /** Maintenance delivers nothing and only queues newer versions. */
  lemma {:induction false} MaintainQueues(s: State, n: nat, now: nat, interval: nat, attempts: nat -> Attempt)
    requires Inv(s) && n <= |s.slots|
    ensures var t := MaintainFirst(s, n, now, interval, attempts);
            && t.store == s.store && t.current == s.current
            && forall k :: k in s.queued ==> k in t.queued && AtMost(s.queued[k], t.queued[k])
  {
    hide Inv, MaintainOne, AtMost;
    if n == 0 {
      forall k | k in s.queued ensures AtMost(s.queued[k], s.queued[k]) {
        Reflexive(s.queued[k]);
      }
    } else {
      MaintainQueues(s, n - 1, now, interval, attempts);
      MaintainKeeps(s, n - 1, now, interval, attempts);
      var u := MaintainFirst(s, n - 1, now, interval, attempts);
      MaintainOneQueues(u, n - 1, now, interval, attempts(n - 1));
      var t := MaintainOne(u, n - 1, now, interval, attempts(n - 1));
      forall k | k in s.queued ensures k in t.queued && AtMost(s.queued[k], t.queued[k]) {
        Transitive(s.queued[k], u.queued[k], t.queued[k]);
      }
    }
  }

  lemma MaintainOneQueues(s: State, at: nat, now: nat, interval: nat, a: Attempt)
    requires Inv(s) && at < |s.slots|
    ensures var t := MaintainOne(s, at, now, interval, a);
            && t.store == s.store && t.current == s.current
            && forall k :: k in s.queued ==> k in t.queued && AtMost(s.queued[k], t.queued[k])
  {
    hide SlotsOk, Delivered, Abandoned, SlotFor, Elapsed, AtMost;
    forall k | k in s.queued ensures AtMost(s.queued[k], s.queued[k]) {
      Reflexive(s.queued[k]);
    }
  }

  function Refusals(): nat -> Attempt { _ => Attempt(true, false, 10) }

  lemma RunLast(size: nat, front: seq<Step>, step: Step)
    ensures Run(size, front + [step]) == Apply(Run(size, front), step)
  {
    hide Apply;
    assert (front + [step])[..|front|] == front;
  }

  lemma FirstRecord(k: Key, v: Version)
    ensures var s := Apply(Apply(Initial(1), Publish(k.kind, v)), Subscribe(k, Attempt(true, true, 0)));
            && s.slots == [Some(Pending(k, v, 0))] && s.subscribers == {k} && s.store == map[] && k in s.queued
  {
    var slots := Initial(1).slots;
    FirstIs(slots, RecordIs(k), 1);
    FirstIs(slots, Unused(), 0);
  }

  /** Such a run from the start: one publication, one subscriber, one refused retry. */
  lemma RefusedRetryRun(k: Key, v: Version)
    ensures var s := Run(1, [Publish(k.kind, v), Subscribe(k, Attempt(true, true, 0)), Maintain(10, 5, Refusals())]);
            k in s.subscribers && k in s.queued && !Has(s.slots, k) && k !in s.store
  {
    hide Apply, Has, Inv;
    var publish, subscribe := Publish(k.kind, v), Subscribe(k, Attempt(true, true, 0));
    var maintain := Maintain(10, 5, Refusals());
    RunLast(1, [], publish);
    RunLast(1, [publish], subscribe);
    RunLast(1, [publish, subscribe], maintain);
    assert [] + [publish] == [publish] && [publish] + [subscribe] == [publish, subscribe];
    assert [publish, subscribe] + [maintain] == [publish, subscribe, maintain];
    FirstRecord(k, v);
    RunKeeps(1, [publish, subscribe]);
    var s := Run(1, [publish, subscribe]);
    RefusedRetryLosesUpdate(s, 0, 10, 5, Refusals());
    assert Apply(s, maintain).store == s.store by { MaintainStores(s, 10, 5, Refusals()); }
  }

  lemma MaintainStores(s: State, now: nat, interval: nat, attempts: nat -> Attempt)
    requires Inv(s)
    ensures Apply(s, Maintain(now, interval, attempts)).store == s.store
  {
    hide Inv, MaintainFirst;
    MaintainQueues(s, |s.slots|, now, interval, attempts);
  }

  // ---------------------------------------------------------------- the transport

  /** The publisher's side as the source writes it; `world` is everything around its table. */
  class Transport {
    var slots: seq<Option<Pending>>
    var subscribers: set<Key>
    var current: map<nat, Version>
    ghost var world: State

    ghost function Model(): State
      reads this
    {
      world.(slots := slots, subscribers := subscribers, current := current)
    }

    constructor (size: nat)
      ensures Model() == Initial(size)
    {
      slots, subscribers, current := seq(size, _ => None), {}, map[];
      world := Initial(size);
    }

    method FindRecord(k: Key) returns (at: nat)
      ensures at == First(slots, RecordIs(k))
    {
      at := 0;
      while at < |slots|
        invariant at <= |slots| && forall j :: 0 <= j < at ==> !RecordIs(k)(slots[j])
      {
        if slots[at].Some? && slots[at].value.key == k { break; }
        at := at + 1;
      }
      FirstIs(slots, RecordIs(k), at);
    }

    /** `PendingLocked` with `create` */
    method FindOrFree(k: Key) returns (at: nat)
      ensures at == SlotFor(slots, k)
    {
      at := FindRecord(k);
      if at < |slots| { return; }
      at := 0;
      while at < |slots|
        invariant at <= |slots| && forall j :: 0 <= j < at ==> !Unused()(slots[j])
      {
        if slots[at].None? { break; }
        at := at + 1;
      }
      FirstIs(slots, Unused(), at);
    }

    method QueueSnapshot(k: Key, a: Attempt) returns (ok: bool)
      modifies this`slots, this`world
      ensures Outcome(Model(), ok) == Queue(old(Model()), k, a)
    {
      hide SlotFor;
      if k.kind !in current || !a.encodes { return false; }
      var v := current[k.kind];
      var at := FindOrFree(k);
      if at == |slots| {
        world := world.(queued := world.queued[k := v], waived := world.waived + {k});
        return false;
      }
      slots := slots[at := Some(Pending(k, v, a.now))];
      world := world.(queued := world.queued[k := v], waived := world.waived - {k});
      if a.sends { world := world.(updates := world.updates + {(k, v)}); }
      ok := a.sends;
    }

    method HandleAcknowledgement(k: Key, v: Version)
      modifies this`slots
      ensures slots == AfterAck(old(slots), k, v)
      ensures (k, v) in world.acks ==> Model() == Apply(old(Model()), Acknowledge((k, v)))
    {
      var at := FindRecord(k);
      if at == |slots| { return; }
      var p := slots[at].value;
      if v.epoch != p.version.epoch || v.revision < p.version.revision { return; }
      slots := slots[at := None];
    }

    /** `ClearPeerPending` */
    method ClearPeer(d: Addr)
      modifies this`slots
      ensures slots == WithoutDevice(old(slots), d)
    {
      var i := 0;
      while i < |slots|
        invariant i <= |slots| == |old(slots)|
        invariant forall j :: 0 <= j < |slots| ==>
                    slots[j] == if j < i then WithoutDevice(old(slots), d)[j] else old(slots)[j]
      {
        if slots[i].Some? && slots[i].value.key.device == d { slots := slots[i := None]; }
        i := i + 1;
      }
    }

    method HandleUnsubscribe(k: Key)
      modifies this
      ensures Model() == Apply(old(Model()), Unsubscribe(k))
    {
      subscribers := subscribers - {k};
      var at := FindRecord(k);
      if at < |slots| { slots := slots[at := None]; }
      world := world.(waived := world.waived + {k});
    }

    method MaintainPending(now: nat, interval: nat, attempts: nat -> Attempt)
      modifies this`slots, this`world
      ensures Model() == Apply(old(Model()), Maintain(now, interval, attempts))
    {
      hide Queue;
      var size := |slots|;
      for i := 0 to size
        invariant |slots| == size && Model() == MaintainFirst(old(Model()), i, now, interval, attempts)
      {
        if slots[i].Some? {
          var k := slots[i].value.key;
          if k !in subscribers {
            slots := slots[i := None];
            world := world.(waived := world.waived + {k});
          } else if Elapsed(now, slots[i].value.last) >= interval {
            var ok := QueueSnapshot(k, attempts(i));
            if !ok {
              slots := slots[i := None];
              world := world.(waived := world.waived + {k});
            }
          }
        }
      }
    }
  }

  /** The subscriber's side: a newer version is applied, a repeated one only acknowledged again. */
  class Subscriber {
    var store: map<Key, Version>

    method HandleUpdate(k: Key, v: Version, subscribed: bool, applies: bool) returns (acknowledged: bool)
      modifies this
      ensures acknowledged <==> subscribed && Takes(old(store), k, v, applies)
      ensures store == if acknowledged then old(store)[k := v] else old(store)
      ensures k in old(store) ==> k in store && AtMost(old(store)[k], store[k])
      ensures acknowledged ==> store[k] == v
    {
      if !subscribed { return false; }
      if k in store && store[k] == v {
        assert store[k := v] == store;
        return true;
      }
      if applies && (k !in store || AtMost(store[k], v)) {
        store := store[k := v];
        return true;
      }
      return false;
    }
  }
}
