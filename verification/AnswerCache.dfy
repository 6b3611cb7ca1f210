/**
 * How long an answer stays in the duplicate cache: the FIFO argument behind duplicate
 * suppression (src/ESPressio_ESPNowCommandEndpoint.hpp:292-319, 466-478).
 */
module AnswerCache {
  import opened Bytes
  import opened CommandCodec
  import opened CommandFragments
  import opened CommandModel
  import opened CommandRuns
  import opened Tables

  /** Number of answers cached after the one for `k`. */
  function Behind(d: seq<Cached>, k: Key): nat {
    if d == [] || d[|d| - 1].key == k then 0 else 1 + Behind(d[..|d| - 1], k)
  }

  lemma {:induction false} BehindBound(d: seq<Cached>, entry: Cached)
    requires DistinctCached(d) && entry in d
    ensures Behind(d, entry.key) < |d|
    ensures Behind(d, entry.key) == |d| - 1 <==> d[0] == entry
  {
    var n := |d| - 1;
    if d[n] != entry {
      var i :| 0 <= i < |d| && d[i] == entry;
      assert d[..n][i] == entry;
      assert d[i].key != d[n].key;
      BehindBound(d[..n], entry);
    } else if n > 0 {
      assert d[0].key != d[n].key;
    }
  }

  lemma {:induction false} BehindDrop(d: seq<Cached>, entry: Cached)
    requires DistinctCached(d) && entry in d && d[0] != entry
    ensures entry in d[1..] && Behind(d[1..], entry.key) == Behind(d, entry.key)
  {
    var n := |d| - 1;
    var i :| 0 <= i < |d| && d[i] == entry;
    assert d[1..][i - 1] == entry;
    if d[n] != entry {
      assert d[..n][i] == entry;
      assert d[i].key != d[n].key;
      BehindDrop(d[..n], entry);
      assert d[..n][1..] == d[1..][..n - 1];
    }
  }

  lemma BehindPush(d: seq<Cached>, x: Cached, k: Key)
    requires x.key != k
    ensures Behind(d + [x], k) == 1 + Behind(d, k)
  {
    assert (d + [x])[..|d|] == d;
  }

  lemma {:induction false} BehindFilter(d: seq<Cached>, p: Cached -> bool, entry: Cached)
    requires DistinctCached(d) && entry in d && p(entry)
    ensures entry in Filter(d, p)
    ensures Behind(Filter(d, p), entry.key) <= Behind(d, entry.key)
    ensures (forall i :: 0 <= i < |d| ==> p(d[i])) ==> Behind(Filter(d, p), entry.key) == Behind(d, entry.key)
  {
    var n := |d| - 1;
    if forall i :: 0 <= i < |d| ==> p(d[i]) { FilterAll(d, p); }
    if d[n] != entry {
      var i :| 0 <= i < |d| && d[i] == entry;
      assert d[..n][i] == entry;
      assert d[i].key != d[n].key;
      BehindFilter(d[..n], p, entry);
      if p(d[n]) { BehindPush(Filter(d[..n], p), d[n], entry.key); }
    }
  }

  /**
   * From `s` to `t` the cache entry `e` aged by the number of answers stored in between:
   * it is still there, byte for byte, while fewer than `maxDuplicates` answers lie behind
   * it. When nothing expires (`exact`) it is lost precisely when that many do.
   */
  ghost predicate Ages(s: State, t: State, e: Cached, exact: bool) {
    var a, n := Behind(s.duplicates, e.key), Tally(t.log, Stores, e.key) - Tally(s.log, Stores, e.key);
    && t.config == s.config && t.initialized && s.log <= t.log
    && (a + n < s.config.maxDuplicates ==>
          && e in t.duplicates && Tally(t.log, Forgets, e.key) == Tally(s.log, Forgets, e.key)
          && Behind(t.duplicates, e.key) <= a + n
          && (exact ==> Behind(t.duplicates, e.key) == a + n))
    && (exact && a + n >= s.config.maxDuplicates ==> Tally(t.log, Forgets, e.key) > Tally(s.log, Forgets, e.key))
  }

  /** Nothing about the cache changed. */
  ghost predicate Still(s: State, t: State, k: Key) {
    && t.duplicates == s.duplicates && t.config == s.config && t.initialized == s.initialized && s.log <= t.log
    && Tally(t.log, Stores, k) == Tally(s.log, Stores, k) && Tally(t.log, Forgets, k) == Tally(s.log, Forgets, k)
  }

  ghost predicate Holding(s: State, e: Cached) { TablesOk(s) && s.initialized && e in s.duplicates }

  lemma StillAges(s: State, t: State, e: Cached, exact: bool)
    requires Holding(s, e) && Still(s, t, e.key)
    ensures Ages(s, t, e, exact)
  {
    hide Tally;
    BehindBound(s.duplicates, e);
  }

  lemma StillThenAges(s: State, t: State, u: State, e: Cached, exact: bool)
    requires Still(s, t, e.key) && Ages(t, u, e, exact)
    ensures Ages(s, u, e, exact)
  {
    hide Tally;
  }

  lemma AgesTrans(s: State, t: State, u: State, e: Cached, exact: bool)
    requires Ages(s, t, e, exact) && s.config == t.config && t.log <= u.log
    requires e in t.duplicates ==> Ages(t, u, e, exact)
    requires u.config == s.config && u.initialized
    ensures Ages(s, u, e, exact)
  {
    hide Tally, Behind;
    TallyMonotone(t.log, u.log, Stores, e.key);
    TallyMonotone(t.log, u.log, Forgets, e.key);
    TallyMonotone(s.log, t.log, Stores, e.key);
    TallyMonotone(s.log, t.log, Forgets, e.key);
  }

  /** One more answer: the entry moves up, or is the one pushed out. */
  lemma StoreAges(s: State, key: Key, result: CommandResult, now: nat, e: Cached, exact: bool)
    requires Holding(s, e) && !Tracked(s, key)
    ensures Ages(s, Store(s, key, result, now), e, exact)
  {
    hide Tally, ResponseBytes;
    var t := Store(s, key, result, now);
    var d := s.duplicates;
    StoreTally(s, key, result, now, Stores, e.key);
    StoreTally(s, key, result, now, Forgets, e.key);
    BehindBound(d, e);
    assert e.key != key by {
      var i :| 0 <= i < |d| && d[i] == e;
      assert CachedHas(d, e.key);
    }
    var x := Cached(key, now, ResponseBytes(result));
    if |d| >= s.config.maxDuplicates {
      if d[0] == e {
        assert Evicts(s, e.key);
      } else {
        BehindDrop(d, e);
        BehindPush(d[1..], x, e.key);
        assert d[0].key != e.key;
      }
    } else {
      BehindPush(d, x, e.key);
    }
  }

  lemma SendStill(s: State, env: Env, to: Addr, m: Message, k: Key)
    ensures Still(s, SendPayload(s, env, to, m).state, k)
  {
    hide Tally;
    SendQuiet(s, env, to, m, k);
  }

  lemma EmitStill(s: State, e: Event, k: Key)
    requires !e.Stored? && (e.Forgot? ==> e.key != k)
    ensures Still(s, Emit(s, [e]), k)
  {
    hide Tally;
    TallyOne(s.log, e, Stores, k);
    TallyOne(s.log, e, Forgets, k);
  }

  lemma EmitManyStill(s: State, es: Log, k: Key)
    requires forall i :: 0 <= i < |es| ==> !es[i].Stored? && !es[i].Forgot?
    ensures Still(s, Emit(s, es), k)
  {
    hide Tally;
    TallyNone(es, Stores, k);
    TallyNone(es, Forgets, k);
    TallyAppend(s.log, es, Stores, k);
    TallyAppend(s.log, es, Forgets, k);
  }

  lemma RespondAges(s: State, env: Env, key: Key, result: CommandResult, now: nat, e: Cached, exact: bool)
    requires Holding(s, e) && !Tracked(s, key)
    ensures Ages(s, Respond(s, env, key, result, now).state, e, exact)
  {
    hide Tally, Store, SendPayload, ResponseBytes;
    if Answerable(s.config, result) {
      var t := Store(s, key, result, now);
      StoreAges(s, key, result, now, e, exact);
      StoreKeeps(s, key, result, now, e.key);
      var m := Message(Response, key.id, ResponseBytes(result));
      SendStill(t, env, key.peer, m, e.key);
      var u := SendPayload(t, env, key.peer, m).state;
      if e in t.duplicates { StillAges(t, u, e, exact); }
      AgesTrans(s, t, u, e, exact);
    } else {
      assert e.key != key by {
        var i :| 0 <= i < |s.duplicates| && s.duplicates[i] == e;
        assert CachedHas(s.duplicates, e.key);
      }
      EmitStill(s, Forgot(key, Unanswerable), e.key);
      StillAges(s, Emit(s, [Forgot(key, Unanswerable)]), e, exact);
    }
  }

  lemma HandleRequestAges(s: State, env: Env, key: Key, payload: Bytes, now: nat, e: Cached, exact: bool)
    requires Holding(s, e)
    ensures Ages(s, HandleRequest(s, env, key, payload, now).state, e, exact)
  {
    hide Tally, Admit, SendPayload, Respond;
    TrackedByFirst(s, key);
    var at := First(s.duplicates, CachedIs(key));
    if at < |s.duplicates| {
      var m := Message(Response, key.id, s.duplicates[at].encoded);
      SendStill(s, env, key.peer, m, e.key);
      StillAges(s, SendPayload(s, env, key.peer, m).state, e, exact);
    } else if First(s.inbound, InboundIs(key)) < |s.inbound| {
      StillAges(s, s, e, exact);
    } else {
      var s1 := Emit(s, [Admitted(key)]);
      EmitStill(s, Admitted(key), e.key);
      var pre, r := AdmitShape(s1, env, key, payload, now);
      var s2 := Emit(s1, pre);
      EmitManyStill(s1, pre, e.key);
      if r.Some? {
        RespondAges(s2, env, key, r.value, now, e, exact);
        StillThenAges(s, s2, Respond(s2, env, key, r.value, now).state, e, exact);
      } else {
        StillAges(s, Admit(s1, env, key, payload, now).state, e, exact);
      }
    }
  }

  lemma DispatchAges(s: State, env: Env, key: Key, kind: MessageType, payload: Bytes, now: nat, e: Cached, exact: bool)
    requires Holding(s, e)
    ensures Ages(s, Dispatch(s, env, key, kind, payload, now).state, e, exact)
  {
    hide Tally, HandleRequest;
    var s1 := Emit(s, [Assembled(key, kind, payload)]);
    EmitStill(s, Assembled(key, kind, payload), e.key);
    match kind {
      case Request =>
        HandleRequestAges(s1, env, key, payload, now, e, exact);
        StillThenAges(s, s1, HandleRequest(s1, env, key, payload, now).state, e, exact);
      case Response =>
        if DecodeResponse(payload).Some? {
          EmitStill(s1, Completed(key, DecodeResponse(payload).value, ByResponse), e.key);
        }
        StillAges(s, HandleResponse(s1, key, payload).state, e, exact);
    }
  }

  lemma ReceiveAges(s: State, env: Env, peer: Addr, data: Bytes, now: nat, e: Cached, exact: bool)
    requires Holding(s, e)
    ensures Ages(s, Receive(s, env, peer, data, now).state, e, exact)
  {
    hide Tally, Dispatch, Reassemble;
    StillAges(s, s, e, exact);
    var parsed := ParseFrame(data);
    if parsed.Some? {
      var (h, bytes) := parsed.value;
      var key := Key(peer, h.id);
      if h.total <= s.config.maxMessage {
        if h.count == 1 {
          DispatchAges(s, env, key, h.kind, bytes, now, e, exact);
        } else {
          ReassembleKeeps(s.slots, s.config, key, h, bytes, now);
          var r := Reassemble(s.slots, s.config, key, h, bytes, now);
          if !r.Dropped? {
            var s1 := s.(slots := r.slots);
            StillAges(s, s1, e, exact);
            if r.Whole? {
              DispatchAges(s1, env, key, h.kind, r.payload, now, e, exact);
              StillThenAges(s, s1, Dispatch(s1, env, key, h.kind, r.payload, now).state, e, exact);
            }
          }
        }
      }
    }
  }

  lemma CallAges(s: State, env: Env, peer: Addr, inv: Invocation, now: nat, e: Cached, exact: bool)
    requires Holding(s, e)
    ensures Ages(s, Call(s, env, peer, inv, now).state, e, exact)
  {
    hide Tally, SendPayload, RequestBytes;
    var key := Key(peer, DrawId(s.nextId));
    var started := Submitted(key, inv, RequestBytes(inv));
    var s1 := Emit(s.(nextId := NextId(s.nextId), drawn := s.drawn + 1), [started])
              .(pending := s.pending + [Pending(key, now)]);
    EmitStill(s, started, e.key);
    var m := Message(Request, key.id, RequestBytes(inv));
    SendStill(s1, env, peer, m, e.key);
    EmitStill(SendPayload(s1, env, peer, m).state, Completed(key, SEND_FAILED, BySendFailure), e.key);
    StillAges(s, Call(s, env, peer, inv, now).state, e, exact);
  }

  lemma CompleteAges(s: State, env: Env, key: Key, result: CommandResult, now: nat, e: Cached, exact: bool)
    requires Holding(s, e)
    ensures Ages(s, Complete(s, env, key, result, now).state, e, exact)
  {
    hide Tally, Respond;
    var at := First(s.inbound, InboundIs(key));
    if at < |s.inbound| {
      assert InboundIs(key)(s.inbound[at]);
      var answered := Answered(s.inbound[at].context, result);
      var s1 := Emit(s, [answered]).(inbound := Remove(s.inbound, at));
      EmitStill(s, answered, e.key);
      InboundRemove(Emit(s, [answered]), at, key);
      RespondAges(s1, env, key, result, now, e, exact);
      StillThenAges(s, s1, Respond(s1, env, key, result, now).state, e, exact);
    } else {
      StillAges(s, s, e, exact);
    }
  }

  lemma {:induction false} ExpireInboundAges(s: State, env: Env, xs: seq<Inbound>, now: nat, e: Cached, exact: bool)
    requires Holding(s, e) && DistinctInbound(xs)
    requires forall i :: 0 <= i < |xs| ==> !Tracked(s, xs[i].context.key)
    ensures Ages(s, ExpireInbound(s, env, xs, now), e, exact)
  {
    hide Tally, Respond, TablesOk, Behind;
    if xs == [] {
      StillAges(s, s, e, exact);
    } else {
      var front, last := xs[..|xs| - 1], xs[|xs| - 1];
      ExpireInboundAges(s, env, front, now, e, exact);
      var key := last.context.key;
      ExpireInboundSettles(s, env, front, now, key);
      var t := ExpireInbound(s, env, front, now);
      assert !InboundHas(front, key);
      var answered := Answered(last.context, INBOUND_TIMED_OUT);
      EmitOne(t, answered, key);
      EmitStill(t, answered, e.key);
      var t1 := Emit(t, [answered]);
      RespondSettles(t1, env, key, INBOUND_TIMED_OUT, now, key);
      var u := Respond(t1, env, key, INBOUND_TIMED_OUT, now).state;
      if e in t.duplicates {
        RespondAges(t1, env, key, INBOUND_TIMED_OUT, now, e, exact);
        StillThenAges(t, t1, u, e, exact);
      }
      AgesTrans(s, t, u, e, exact);
    }
  }

  lemma {:induction false} ExpireInboundEntries(s: State, env: Env, xs: seq<Inbound>, now: nat)
    ensures forall d :: d in ExpireInbound(s, env, xs, now).duplicates ==> d in s.duplicates || d.created == now
    ensures ExpireInbound(s, env, xs, now).config == s.config
  {
    hide Sends, ResponseBytes;
    if xs != [] { ExpireInboundEntries(s, env, xs[..|xs| - 1], now); }
  }

  /** Every remembered answer is still within its lifetime at `now`. */
  ghost predicate AllLive(s: State, now: nat) {
    && s.config.duplicateLifetime > 0
    && forall d :: d in s.duplicates ==> Within(now, d.created, s.config.duplicateLifetime)
  }

  lemma ExpireCacheAges(s: State, now: nat, e: Cached, exact: bool)
    requires Holding(s, e) && Within(now, e.created, s.config.duplicateLifetime) && (exact ==> AllLive(s, now))
    ensures Ages(s, ExpireCache(s, now), e, exact)
  {
    hide Tally, Losses;
    var live := CachedLive(now, s.config);
    var dead := Filter(s.duplicates, Not(live));
    var es := Losses(CachedKeys(dead), Expired);
    CachedSplit(s.duplicates, live, e.key);
    BehindFilter(s.duplicates, live, e);
    BehindBound(s.duplicates, e);
    assert CachedHas(Filter(s.duplicates, live), e.key) by {
      var kept := Filter(s.duplicates, live);
      var i :| 0 <= i < |kept| && kept[i] == e;
    }
    CachedLosses(dead, Expired, Forgets, e.key);
    CachedLosses(dead, Expired, Stores, e.key);
    TallyAppend(s.log, es, Forgets, e.key);
    TallyAppend(s.log, es, Stores, e.key);
  }

  lemma InboundSweepAges(s: State, env: Env, now: nat, e: Cached, exact: bool)
    requires Holding(s, e)
    ensures var live := InboundLive(now, s.config);
            var t := ExpireInbound(s.(inbound := Filter(s.inbound, live)), env, Filter(s.inbound, Not(live)), now);
            Ages(s, t, e, exact) && TablesOk(t) && forall d :: d in t.duplicates ==>
                d in s.duplicates || d.created == now
  {
    hide Tally, ExpireInbound, Behind;
    var live := InboundLive(now, s.config);
    var dead := Filter(s.inbound, Not(live));
    var s1 := s.(inbound := Filter(s.inbound, live));
    FilterInbound(s, live, e.key);
    forall i | 0 <= i < |dead| ensures !Tracked(s1, dead[i].context.key) {
      FilterInbound(s, live, dead[i].context.key);
      assert InboundHas(dead, dead[i].context.key);
    }
    ExpireInboundAges(s1, env, dead, now, e, exact);
    StillThenAges(s, s1, ExpireInbound(s1, env, dead, now), e, exact);
    ExpireInboundSettles(s1, env, dead, now, e.key);
    ExpireInboundEntries(s1, env, dead, now);
  }

  lemma SweepAges(s: State, env: Env, now: nat, e: Cached, exact: bool)
    requires Holding(s, e) && Within(now, e.created, s.config.duplicateLifetime) && (exact ==> AllLive(s, now))
    ensures Ages(s, Sweep(s, env, now), e, exact)
  {
    hide Tally, ExpireInbound, Behind, ExpireCache;
    var pendingLive, inboundLive := PendingLive(now, s.config), InboundLive(now, s.config);
    var ended := Completions(Filter(s.pending, Not(pendingLive)), TIMED_OUT, ByTimeout);
    var s1 := s.(pending := Filter(s.pending, pendingLive), log := s.log + ended);
    EmitManyStill(s, ended, e.key);
    PendingSweepKeeps(s, pendingLive, e.key);
    InboundSweepAges(s1, env, now, e, exact);
    var s2 := ExpireInbound(s1.(inbound := Filter(s.inbound, inboundLive)), env,
                            Filter(s.inbound, Not(inboundLive)), now);
    StillThenAges(s, s1, s2, e, exact);
    var s3 := s2.(slots := Filter(s2.slots, SlotLive(now, s.config)));
    FilterSlots(s2.slots, SlotLive(now, s.config));
    if e in s3.duplicates { ExpireCacheAges(s3, now, e, exact); }
    CacheGrows(s3, now);
    AgesTrans(s, s3, ExpireCache(s3, now), e, exact);
  }

  lemma CacheGrows(s: State, now: nat)
    ensures var t := ExpireCache(s, now); t.config == s.config && t.initialized == s.initialized && s.log <= t.log
  {
  }

  // ---------------------------------------------------------------- runs

  /** Neither a shutdown nor an expiry hits the entry; with `exact`, no expiry hits any entry. */
  ghost predicate Spares(s: State, a: Action, e: Cached, exact: bool) {
    && !a.Initialize? && !a.Shutdown?
    && (a.DoUpdate? ==>
          Within(a.now, e.created, s.config.duplicateLifetime) && (exact ==> AllLive(s, a.now)))
  }

  ghost predicate SparesAll(s: State, actions: seq<Action>, e: Cached, exact: bool)
    requires TablesOk(s)
  {
    forall n :: 0 <= n < |actions| ==> Spares(Run(s, actions[..n]), actions[n], e, exact)
  }

  lemma ApplyAges(s: State, a: Action, e: Cached, exact: bool)
    requires Holding(s, e) && Spares(s, a, e, exact)
    ensures Ages(s, Apply(s, a), e, exact)
  {
    hide Tally, Call, Receive, Complete, Sweep, Stop, Behind;
    match a
    case Initialize(_) => 
    case Shutdown =>
    case SetPolicy(p) => StillAges(s, s.(hasPolicy := p), e, exact);
    case SetHandler(p) => StillAges(s, s.(hasHandler := p), e, exact);
    case DoInvoke(env, peer, inv, now) => CallAges(s, env, peer, inv, now, e, exact);
    case DoReceive(env, peer, data, now) => ReceiveAges(s, env, peer, data, now, e, exact);
    case DoComplete(env, key, result, now) => CompleteAges(s, env, key, result, now, e, exact);
    case DoUpdate(env, now) => SweepAges(s, env, now, e, exact);
  }

  lemma {:induction false} RunAges(s: State, actions: seq<Action>, e: Cached, exact: bool)
    requires Holding(s, e) && SparesAll(s, actions, e, exact)
    ensures Ages(s, Run(s, actions), e, exact)
  {
    hide Tally, Apply, Behind, Spares;
    if actions == [] {
      StillAges(s, s, e, exact);
    } else {
      var n := |actions| - 1;
      var front, a := actions[..n], actions[n];
      forall i | 0 <= i < |front| ensures Spares(Run(s, front[..i]), front[i], e, exact) {
        assert front[..i] == actions[..i];
      }
      RunAges(s, front, e, exact);
      var t := Run(s, front);
      assert Spares(t, a, e, exact);
      SparesRuns(t, a, e, exact);
      ConfigKept(t, a);
      ApplyKeeps(t, a, e.key);
      if e in t.duplicates { ApplyAges(t, a, e, exact); }
      AgesTrans(s, t, Apply(t, a), e, exact);
    }
  }

  lemma SparesRuns(s: State, a: Action, e: Cached, exact: bool)
    requires Spares(s, a, e, exact)
    ensures !a.Initialize? && !a.Shutdown?
  {
  }

  /**
   * Duplicate suppression lasts. After a response has just been cached, and through any
   * calls that neither shut the endpoint down nor outlive the entry, the same bytes stay
   * cached and the request reaches no callback again until `maxDuplicates` further
   * responses have been cached.
   */
  lemma AnswerOutlivesLaterAnswers(s: State, actions: seq<Action>, tag: Tag)
    requires TablesOk(s) && s.initialized && s.duplicates != [] && Executes(tag)
    requires Balanced(s, s.duplicates[|s.duplicates| - 1].key)
    requires SparesAll(s, actions, s.duplicates[|s.duplicates| - 1], false)
    requires var k := s.duplicates[|s.duplicates| - 1].key;
             Tally(Run(s, actions).log, Stores, k) - Tally(s.log, Stores, k) < s.config.maxDuplicates
    ensures var e := s.duplicates[|s.duplicates| - 1];
            e in Run(s, actions).duplicates && Tally(Run(s, actions).log, tag, e.key) == Tally(s.log, tag, e.key)
  {
    hide Tally, Run, TablesOk;
    var e := s.duplicates[|s.duplicates| - 1];
    RunAges(s, actions, e, false);
    assert Tracked(s, e.key) by { assert CachedHas(s.duplicates, e.key); }
    NoReexecutionWhileTracked(s, actions, e.key, tag);
  }

  /** The bound is exact: when nothing expires, the answer is lost precisely at that many. */
  lemma AnswerLostExactlyAtCapacity(s: State, actions: seq<Action>)
    requires TablesOk(s) && s.initialized && s.duplicates != []
    requires SparesAll(s, actions, s.duplicates[|s.duplicates| - 1], true)
    ensures var k := s.duplicates[|s.duplicates| - 1].key;
            Tally(Run(s, actions).log, Forgets, k) > Tally(s.log, Forgets, k)
            <==> Tally(Run(s, actions).log, Stores, k) - Tally(s.log, Stores, k) >= s.config.maxDuplicates
  {
    hide Tally, Run, TablesOk;
    RunAges(s, actions, s.duplicates[|s.duplicates| - 1], true);
  }
}
