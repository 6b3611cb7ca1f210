/**
 * What the State calls do, in the terms of the call: when a publication counts, when an
 * update is applied and acknowledged, when a record is retried, cleared or dropped
 * (src/ESPressio_ESPNowStateTransport.hpp:149-167, 255-364, 380-442).
 */
module StateOperations {
  import opened Bytes
  import opened StateDelivery
  import opened Tables

  /** A higher revision of the same epoch, or any revision of a later epoch. */
  predicate Newer(a: Version, b: Version) {
    a.epoch > b.epoch || (a.epoch == b.epoch && a.revision > b.revision)
  }

  /** A publication becomes current exactly if it is the first or newer. */
  lemma PublishExactly(s: State, kind: nat, v: Version)
    ensures var t := Apply(s, Publish(kind, v));
            && t == s.(current := t.current)
            && t.current
               == if kind !in s.current || Newer(v, s.current[kind]) then s.current[kind := v] else s.current
  {
  }

  /**
   * An update that is on the air reaches the store of a subscriber exactly if it is new to
   * it, or newer and not refused by it; and it is acknowledged then and when it is a repeat.
   */
  lemma ArriveExactly(s: State, k: Key, v: Version, subscribed: bool, applies: bool, acknowledges: bool)
    requires (k, v) in s.updates
    ensures var t := Apply(s, Arrive((k, v), subscribed, applies, acknowledges));
            var again := k in s.store && s.store[k] == v;
            var advances := applies && (k !in s.store || Newer(v, s.store[k]));
            && t == s.(store := t.store, acks := t.acks)
            && t.store == (if subscribed && advances then s.store[k := v] else s.store)
            && t.acks == s.acks + if subscribed && acknowledges && (again || advances) then {(k, v)} else {}
  {
    if k in s.store && s.store[k] == v { assert s.store[k := v] == s.store; }
  }

  /** An acknowledgement clears the record of its key exactly if it names its epoch and at least its revision. */
  lemma AcknowledgeExactly(s: State, k: Key, v: Version, at: nat)
    requires Inv(s) && (k, v) in s.acks && at < |s.slots| && s.slots[at].Some? && s.slots[at].value.key == k
    ensures var p := s.slots[at].value.version;
            Apply(s, Acknowledge((k, v)))
            == if v.epoch == p.epoch && v.revision >= p.revision then s.(slots := s.slots[at := None]) else s
  {
    hide Ordered, Delivered, Abandoned;
    OwnFirst(s, at);
  }

  lemma OwnFirst(s: State, at: nat)
    requires SlotsOk(s) && at < |s.slots| && s.slots[at].Some?
    ensures First(s.slots, RecordIs(s.slots[at].value.key)) == at
  {
    FirstIs(s.slots, RecordIs(s.slots[at].value.key), at);
  }

  /**
   * An update is queued in the record of its key, or in a free one, with the version that is
   * current and the time of the attempt; sent or not, it is pending. With neither record
   * nothing is sent, and the key is given up.
   */
  lemma EnqueueExactly(s: State, k: Key, a: Attempt)
    requires Inv(s) && k.kind in s.current && a.encodes
    ensures var t, v := Apply(s, Enqueue(k, a)), s.current[k.kind];
            if Has(s.slots, k) || (exists i :: 0 <= i < |s.slots| && s.slots[i].None?) then
              && (exists i :: 0 <= i < |s.slots| && t.slots == s.slots[i := Some(Pending(k, v, a.now))]
                    && (s.slots[i].None? || s.slots[i].value.key == k))
              && t.updates == (if a.sends then s.updates + {(k, v)} else s.updates) && k !in t.waived
            else
              t.slots == s.slots && t.updates == s.updates && k in t.waived
  {
    hide Inv;
    SlotForFits(s.slots, k);
    var at := SlotFor(s.slots, k);
    if at < |s.slots| {
      assert Apply(s, Enqueue(k, a)).slots == s.slots[at := Some(Pending(k, s.current[k.kind], a.now))];
    } else {
      NoneFree(s.slots, k);
    }
  }

  /** Subscribing adds the subscription and queues what is current, like any other update. */
  lemma SubscribeExactly(s: State, k: Key, a: Attempt)
    requires Inv(s)
    ensures var t := Apply(s, Subscribe(k, a));
            && t.subscribers == s.subscribers + {k}
            && (k.kind in s.current && a.encodes
                && (Has(s.slots, k) || exists i :: 0 <= i < |s.slots| && s.slots[i].None?) ==>
                  Has(t.slots, k) && k in t.queued && t.queued[k] == s.current[k.kind])
            && (k.kind !in s.current || !a.encodes ==> t == s.(subscribers := t.subscribers))
  {
    hide Inv, Has;
    var u := s.(subscribers := s.subscribers + {k});
    SubscribersFree(s, u.subscribers);
    if k.kind in s.current && a.encodes {
      EnqueueExactly(u, k, a);
      SlotForFits(s.slots, k);
      var at := SlotFor(s.slots, k);
      if at < |s.slots| { HasAfterPut(s.slots, at, Pending(k, s.current[k.kind], a.now), k); }
    }
  }

  /** Unsubscribing and leaving end the subscriptions and records concerned, and no others. */
  lemma DepartureExactly(s: State, k: Key, x: Key)
    requires Inv(s)
    ensures var t := Apply(s, Unsubscribe(k));
            && (x in t.subscribers <==> x in s.subscribers && x != k)
            && (Has(t.slots, x) <==> Has(s.slots, x) && x != k)
    ensures var t := Apply(s, Leave(k.device));
            && (x in t.subscribers <==> x in s.subscribers && x.device != k.device)
            && (Has(t.slots, x) <==> Has(s.slots, x) && x.device != k.device)
  {
    hide Ordered, Delivered, Abandoned, Has;
    var at := First(s.slots, RecordIs(k));
    if at < |s.slots| {
      HasAfterClear(s.slots, at, x);
      ClearedHasNone(s, at);
    } else {
      assert !Has(s.slots, k) by { NotThere(s.slots, k); }
    }
    LeftExactly(s.slots, k.device, x);
  }

  lemma NotThere(slots: seq<Option<Pending>>, k: Key)
    requires First(slots, RecordIs(k)) == |slots|
    ensures !Has(slots, k)
  {
  }

  lemma LeftExactly(slots: seq<Option<Pending>>, d: Addr, x: Key)
    ensures Has(WithoutDevice(slots, d), x) <==> Has(slots, x) && x.device != d
  {
    var r := WithoutDevice(slots, d);
    if Has(slots, x) && x.device != d {
      var i :| 0 <= i < |slots| && RecordIs(x)(slots[i]);
      assert RecordIs(x)(r[i]);
    }
    if Has(r, x) {
      var i :| 0 <= i < |r| && RecordIs(x)(r[i]);
      assert RecordIs(x)(slots[i]);
    }
  }

  lemma NoneFree(slots: seq<Option<Pending>>, k: Key)
    requires SlotFor(slots, k) == |slots|
    ensures !Has(slots, k) && forall i :: 0 <= i < |slots| ==> slots[i].Some?
  {
    assert forall i :: 0 <= i < |slots| ==> !Unused()(slots[i]);
  }

  // ---------------------------------------------------------------- retries

  /** The retry interval has passed since `last`, on a 64-bit clock that may have wrapped. */
  predicate Due(now: nat, last: nat, interval: nat) {
    if now >= last then now - last >= interval else now + 0x1_0000_0000_0000_0000 - last >= interval
  }

  /** The fate of one record: dropped with its subscriber, left alone until due, retried, or dropped if that fails. */
  function Fate(s: State, r: Pending, now: nat, interval: nat, a: Attempt): Option<Pending> {
    if r.key !in s.subscribers then None
    else if !Due(now, r.last, interval) then Some(r)
    else if r.key.kind in s.current && a.encodes && a.sends then
      Some(Pending(r.key, s.current[r.key.kind], a.now))
    else None
  }

  lemma Interval(now: U64, last: U64)
    ensures Elapsed(now, last) == if now >= last then now - last else now + 0x1_0000_0000_0000_0000 - last
  {
  }

  lemma OneFate(s: State, at: nat, now: U64, interval: nat, a: Attempt)
    requires Inv(s) && at < |s.slots| && s.slots[at].Some? && s.slots[at].value.last < RETRY_WRAP
    ensures MaintainOne(s, at, now, interval, a).slots
         == s.slots[at := Fate(s, s.slots[at].value, now, interval, a)]
  {
    hide Ordered, Delivered, Abandoned, SlotFor, Elapsed;
    OwnSlot(s, at);
    Interval(now, s.slots[at].value.last);
  }

  /** `Maintain` decides the fate of every record, each by itself. */
  lemma {:induction false} MaintainFates(s: State, n: nat, now: U64, interval: nat, attempts: nat -> Attempt, at: nat)
    requires Inv(s) && at < n <= |s.slots| && s.slots[at].Some? && s.slots[at].value.last < RETRY_WRAP
    ensures MaintainFirst(s, n, now, interval, attempts).slots[at]
         == Fate(s, s.slots[at].value, now, interval, attempts(at))
  {
    hide Inv, MaintainOne, Fate;
    var u := MaintainFirst(s, n - 1, now, interval, attempts);
    MaintainKeeps(s, n - 1, now, interval, attempts);
    MaintainExact(s, n - 1, now, interval, attempts);
    if at == n - 1 {
      OneFate(u, at, now, interval, attempts(at));
      assert Fate(u, s.slots[at].value, now, interval, attempts(at))
          == Fate(s, s.slots[at].value, now, interval, attempts(at)) by { SameFate(u, s, at, now, interval, attempts); }
    } else {
      MaintainFates(s, n - 1, now, interval, attempts, at);
      if u.slots[n - 1].Some? {
        MaintainOneExact(u, n - 1, now, interval, attempts(n - 1));
      } else {
        MaintainNothing(u, n - 1, now, interval, attempts(n - 1));
      }
    }
  }

  lemma SameFate(u: State, s: State, at: nat, now: nat, interval: nat, attempts: nat -> Attempt)
    requires u.subscribers == s.subscribers && u.current == s.current && at < |s.slots| && s.slots[at].Some?
    ensures Fate(u, s.slots[at].value, now, interval, attempts(at))
         == Fate(s, s.slots[at].value, now, interval, attempts(at))
  {
  }

  /** A retry that is due and goes out carries the newest version and starts a new interval; others wait or end. */
  lemma MaintainedExactly(s: State, now: U64, interval: nat, attempts: nat -> Attempt, at: nat)
    requires Inv(s) && at < |s.slots| && s.slots[at].Some? && s.slots[at].value.last < RETRY_WRAP
    ensures Apply(s, Maintain(now, interval, attempts)).slots[at]
         == Fate(s, s.slots[at].value, now, interval, attempts(at))
    ensures Retried(s, s.slots[at].value, now, interval, attempts(at)) ==>
              (s.slots[at].value.key, s.current[s.slots[at].value.key.kind])
              in Apply(s, Maintain(now, interval, attempts)).updates
  {
    hide Inv, MaintainFirst, Fate;
    MaintainFates(s, |s.slots|, now, interval, attempts, at);
    if Retried(s, s.slots[at].value, now, interval, attempts(at)) {
      MaintainSends(s, |s.slots|, now, interval, attempts, at);
    }
  }

  predicate Retried(s: State, r: Pending, now: nat, interval: nat, a: Attempt) {
    && r.key in s.subscribers && r.last < RETRY_WRAP && Due(now, r.last, interval)
    && r.key.kind in s.current && a.encodes && a.sends
  }

  lemma {:induction false} MaintainSends(s: State, n: nat, now: U64, interval: nat, attempts: nat -> Attempt, at: nat)
    requires Inv(s) && at < n <= |s.slots| && s.slots[at].Some?
    requires Retried(s, s.slots[at].value, now, interval, attempts(at))
    ensures var k := s.slots[at].value.key;
            (k, s.current[k.kind]) in MaintainFirst(s, n, now, interval, attempts).updates
  {
    hide Inv, MaintainOne, Due, Elapsed;
    var u := MaintainFirst(s, n - 1, now, interval, attempts);
    if at < n - 1 {
      MaintainSends(s, n - 1, now, interval, attempts, at);
      OneGrows(u, n - 1, now, interval, attempts(n - 1));
    } else {
      MaintainExact(s, n - 1, now, interval, attempts);
      MaintainKeeps(s, n - 1, now, interval, attempts);
      OneSends(u, at, now, interval, attempts(at));
    }
  }

  lemma OneGrows(s: State, at: nat, now: nat, interval: nat, a: Attempt)
    requires at < |s.slots|
    ensures s.updates <= MaintainOne(s, at, now, interval, a).updates
  {
    hide SlotFor, Elapsed;
  }

  lemma OneSends(s: State, at: nat, now: U64, interval: nat, a: Attempt)
    requires Inv(s) && at < |s.slots| && s.slots[at].Some? && Retried(s, s.slots[at].value, now, interval, a)
    ensures var k := s.slots[at].value.key; (k, s.current[k.kind]) in MaintainOne(s, at, now, interval, a).updates
  {
    hide Ordered, Delivered, Abandoned, SlotFor, Elapsed;
    Interval(now, s.slots[at].value.last);
    OwnSlot(s, at);
  }

  // ---------------------------------------------------------------- from publication to acknowledgement

  /**
   * The whole way of an update: it is queued, sent, applied and acknowledged, and then the
   * subscriber holds what is current and nothing is pending for it.
   */
  lemma UpdateDelivered(s: State, k: Key, now: nat)
    requires Inv(s) && k.kind in s.current && (Has(s.slots, k) || exists i :: 0 <= i < |s.slots| && s.slots[i].None?)
    ensures var v := s.current[k.kind];
            var sent := Apply(s, Enqueue(k, Attempt(true, true, now)));
            var arrived := Apply(sent, Arrive((k, v), true, true, true));
            var settled := Apply(arrived, Acknowledge((k, v)));
            && Has(sent.slots, k) && k in settled.store && settled.store[k] == v && !Has(settled.slots, k)
            && (forall x :: x != k ==> (Has(settled.slots, x) <==> Has(s.slots, x)))
  {
    hide Inv, Apply, Has;
    var v, a := s.current[k.kind], Attempt(true, true, now);
    var sent := Apply(s, Enqueue(k, a));
    EnqueueExactly(s, k, a);
    StepKeeps(s, Enqueue(k, a));
    var at :| 0 <= at < |s.slots| && sent.slots == s.slots[at := Some(Pending(k, v, a.now))]
      && (s.slots[at].None? || s.slots[at].value.key == k);
    var arrive := Arrive((k, v), true, true, true);
    var arrived := Apply(sent, arrive);
    StepKeeps(sent, arrive);
    ArriveExactly(sent, k, v, true, true, true);
    NotBehind(sent, k, v, at);
    AcknowledgeExactly(arrived, k, v, at);
    var settled := Apply(arrived, Acknowledge((k, v)));
    assert !Has(settled.slots, k) by { ClearedOne(arrived, at); }
    forall x
      ensures Has(sent.slots, x) <==> Has(s.slots, x) || x == k
      ensures x != k ==> (Has(settled.slots, x) <==> Has(sent.slots, x))
    {
      HasAfterPut(s.slots, at, Pending(k, v, a.now), x);
      HasAfterClear(arrived.slots, at, x);
    }
  }

  lemma ClearedOne(s: State, at: nat)
    requires Inv(s) && at < |s.slots| && s.slots[at].Some?
    ensures !Has(s.slots[at := None], s.slots[at].value.key)
  {
    ClearedHasNone(s, at);
  }

  /** A store never holds more than what was queued. */
  lemma NotBehind(s: State, k: Key, v: Version, at: nat)
    requires Inv(s) && at < |s.slots| && s.slots[at].Some? && s.slots[at].value.key == k
    requires s.slots[at].value.version == v
    ensures k in s.store && s.store[k] != v ==> Newer(v, s.store[k])
  {
    hide Delivered, Abandoned;
  }
}
