/**
 * What a caller of the endpoint can observe, call by call, in the terms of the call itself:
 * times as plain subtraction, error codes and texts as literals, limits as numbers
 * (src/ESPressio_ESPNowCommandEndpoint.hpp).
 */
module CommandOperations {
  import opened Bytes
  import opened Chunks
  import opened CommandCodec
  import opened CommandFragments
  import opened CommandModel
  import opened CommandProvenance
  import opened CommandRoundTrip
  import opened CommandRuns
  import opened CommandSystem
  import opened CommandTimeouts
  import opened Reassembly
  import opened Reexecution
  import opened Sending
  import opened Tables

  // ---------------------------------------------------------------- limits

  lemma ResponseLength(r: CommandResult)
    ensures |ResponseBytes(r)| == 7 + |r.message|
  {
  }

  /** An answer has a wire form when its text fits 16 bits and the whole fits the message limit. */
  lemma AnswerableExactly(c: Config, r: CommandResult)
    ensures Answerable(c, r) <==> |r.message| <= 65535 && 7 + |r.message| <= c.maxMessage
  {
    ResponseLength(r);
  }

  /** A payload goes out when it is not empty and fits 65535 fragments and a 32-bit length. */
  lemma SendableExactly(size: nat, limit: nat)
    ensures FragmentCount(size, limit) > 0 <==>
              (limit > 26 && 0 < size <= 4294967295 && size <= 65535 * (limit - 26))
    ensures FragmentCount(size, limit) > 0 ==>
              ((FragmentCount(size, limit) - 1) * (limit - 26) < size <= FragmentCount(size, limit) * (limit - 26))
  {
    if limit > 26 && size > 0 {
      CountBounds(size, limit - 26);
      var n := ChunkCount(size, limit - 26);
      if n > 65535 {
        if n > 65536 { Steps(limit - 26, 65535, n - 1); }
      } else if n < 65535 {
        Steps(limit - 26, n, 65535);
      }
    }
  }

  // ---------------------------------------------------------------- Initialize and Shutdown

  /** Exactly these configurations are accepted; an endpoint that was in use is shut down either way. */
  lemma InitializeExactly(s: State, c: Config)
    requires TablesOk(s)
    ensures var o := Configure(s, c);
            && (o.ok <==> c.maxPayload > 26 && c.maxMessage != 0 && c.maxOutstanding != 0 && c.maxReassemblies != 0
                          && c.maxDuplicates != 0 && c.maxInbound != 0 && c.inboundTimeout != 0)
            && o.state == Apply(s, Shutdown).(initialized := o.ok, config := if o.ok then c else s.config)
  {
  }

  /** Every pending request is completed with code 3, in order; nothing is left. */
  lemma ShutdownExactly(s: State)
    requires TablesOk(s)
    ensures var t := Apply(s, Shutdown);
            && !t.initialized && !t.hasPolicy && !t.hasHandler && t.config == s.config
            && t.pending == [] && t.inbound == [] && t.slots == [] && t.duplicates == []
            && t.nextId == s.nextId && t.drawn == s.drawn
            && (!s.initialized ==> t.log == s.log)
            && (s.initialized ==>
                  (|t.log| >= |s.log| + |s.pending|
                   && forall i :: 0 <= i < |s.pending| ==>
                        t.log[|s.log| + i]
                        == Completed(s.pending[i].key,
                                     CommandResult(false, 3, Ascii("ESP-NOW Command endpoint shut down")),
                                     ByShutdown)))
  {
    hide Completions, Losses, InboundKeys, CachedKeys, TablesOk;
    assert s.log + [] == s.log;
    ValidWhenReady(s);
    var a := Completions(s.pending, SHUT_DOWN, ByShutdown);
    var b, d := Losses(InboundKeys(s.inbound), ShutDown), Losses(CachedKeys(s.duplicates), ShutDown);
    if s.initialized {
      forall i | 0 <= i < |s.pending| ensures (s.log + (a + b + d))[|s.log| + i] == a[i] {
        MiddleOfLog(s.log, a, b, d, i);
      }
    }
  }

  lemma MiddleOfLog(log: Log, a: Log, b: Log, c: Log, i: nat)
    requires i < |a|
    ensures (log + (a + b + c))[|log| + i] == a[i]
  {
  }

  lemma ValidWhenReady(s: State)
    requires TablesOk(s)
    ensures s.initialized ==> ValidConfig(s.config)
  {
  }

  // ---------------------------------------------------------------- Invoke

  /** The conditions under which `Invoke` gives up before it draws an identifier. */
  predicate Turned(s: State, inv: Invocation) {
    !s.initialized || inv.path == [] || |s.pending| >= s.config.maxOutstanding
  }

  /** An invocation without a wire form, or with one beyond the message limit. */
  predicate TooLarge(s: State, inv: Invocation) { !Encodable(inv) || |RequestBytes(inv)| > s.config.maxMessage }

  /**
   * `Invoke` in full: what it refuses, the identifier it draws, the entry it leaves with the
   * time of the call, and the completion with code 2 when a frame is refused.
   */
  lemma InvokeExactly(s: State, env: Env, peer: Addr, inv: Invocation, now: nat)
    ensures var o := Call(s, env, peer, inv, now);
            var id: U64 := if s.nextId == 0 then 1 else s.nextId;
            var key := Key(peer, id);
            && o.state.inbound == s.inbound && o.state.slots == s.slots && o.state.duplicates == s.duplicates
            && o.state.config == s.config && o.state.initialized == s.initialized
            && (Turned(s, inv) ==> o == Outcome(s, false))
            && (!Turned(s, inv) ==> o.state.nextId as int == (id as int + 1) % 18446744073709551616)
            && (!Turned(s, inv) && TooLarge(s, inv) ==>
                  (!o.ok && o.state.pending == s.pending && o.state.log == s.log))
            && (o.ok ==>
                  (o.state.pending == s.pending + [Pending(key, now)] && |o.state.log| > |s.log|
                   && o.state.log[|s.log|] == Submitted(key, inv, RequestBytes(inv))))
            && (!o.ok && !Turned(s, inv) && !TooLarge(s, inv) ==>
                  (o.state.pending == s.pending && o.state.log != []
                   && o.state.log[|o.state.log| - 1]
                      == Completed(key, CommandResult(false, 2, Ascii("Failed to send ESP-NOW Command request")),
                                   BySendFailure)))
  {
    hide SendPayload, RequestBytes, Encodable;
    if !Turned(s, inv) && !TooLarge(s, inv) {
      var key := Key(peer, DrawId(s.nextId));
      var s1 := s.(nextId := NextId(s.nextId), drawn := s.drawn + 1);
      var s2 := Emit(s1, [Submitted(key, inv, RequestBytes(inv))]).(pending := s.pending + [Pending(key, now)]);
      var m := Message(Request, key.id, RequestBytes(inv));
      var es := SendShape(s2, env, peer, m);
      assert (s.log + [Submitted(key, inv, RequestBytes(inv))] + es)[|s.log|] == Submitted(key, inv, RequestBytes(inv));
    }
  }

  /** It succeeds exactly when the request can be made, can be sent, and each of its frames is accepted. */
  lemma InvokeSucceedsExactly(s: State, env: Env, peer: Addr, inv: Invocation, now: nat)
    ensures var n := FragmentCount(|RequestBytes(inv)|, s.config.maxPayload);
            Call(s, env, peer, inv, now).ok
            <==> !Turned(s, inv) && !TooLarge(s, inv) && n > 0
                 && forall i :: |s.log| + 1 <= i < |s.log| + 1 + n ==> env.accepts(i)
  {
    hide RequestBytes, Encodable, FragmentCount, Sends;
    PassedExactly(env.accepts, |s.log| + 1, FragmentCount(|RequestBytes(inv)|, s.config.maxPayload));
  }

  lemma {:induction false} PassedExactly(accepts: nat -> bool, base: nat, n: nat)
    ensures Passed(accepts, base, n) == n <==> forall i :: base <= i < base + n ==> accepts(i)
  {
    if n > 0 { PassedExactly(accepts, base, n - 1); }
  }

  /**
   * A message leaves frame by frame, the one with index 0 first, as long as the radio accepts;
   * the frame it refuses is the last event, and sending succeeds when it refuses none.
   */
  lemma FramesInOrder(s: State, env: Env, to: Addr, m: Message, i: nat)
    requires i < FragmentCount(|m.payload|, s.config.maxPayload)
    requires forall j :: |s.log| <= j < |s.log| + i ==> env.accepts(j)
    ensures var o, at := SendPayload(s, env, to, m), |s.log| + i;
            && o.state == s.(log := o.state.log) && at < |o.state.log| && s.log <= o.state.log
            && (env.accepts(at) ==> o.state.log[at] == Transmitted(to, Frame(s.config.maxPayload, m, i), m, i))
            && (!env.accepts(at) ==> o.state.log[at] == Refused(to, m, i) && |o.state.log| == at + 1 && !o.ok)
            && (env.accepts(at) && i + 1 == FragmentCount(|m.payload|, s.config.maxPayload) ==>
                  o.ok && |o.state.log| == at + 1)
  {
    hide FragmentCount, Frame;
    var n := FragmentCount(|m.payload|, s.config.maxPayload);
    PassedExactly(env.accepts, |s.log|, i);
    if env.accepts(|s.log| + i) {
      PassedExactly(env.accepts, |s.log|, i + 1);
      PassedMore(env.accepts, |s.log|, i + 1, n);
    } else {
      RefusedAt(env.accepts, |s.log|, i, n);
    }
  }

  lemma {:induction false} PassedMore(accepts: nat -> bool, base: nat, k: nat, n: nat)
    requires k <= n && Passed(accepts, base, k) == k
    ensures Passed(accepts, base, n) >= k
  {
    if k < n { PassedMore(accepts, base, k, n - 1); }
  }

  // ---------------------------------------------------------------- CompleteInbound

  /**
   * The answer given to `CompleteInbound` is the answer the observer, the cache and the peer
   * get, and the request is done with: for every entry, every result with a wire form.
   */
  lemma CompletionIsAnswered(s: State, env: Env, x: Inbound, r: CommandResult, now: nat)
    requires TablesOk(s) && s.initialized && x in s.inbound && (forall i :: env.accepts(i))
    requires |r.message| <= 65535 && 7 + |r.message| <= s.config.maxMessage
    requires FragmentCount(7 + |r.message|, s.config.maxPayload) > 0
    ensures var key := x.context.key;
            var t := Apply(s, DoComplete(env, key, r, now));
            && Answered(x.context, r) in t.log && Stored(key, r) in t.log
            && t.duplicates != [] && t.duplicates[|t.duplicates| - 1] == Cached(key, now, ResponseBytes(r))
            && FullySent(t.log, key.peer, Message(Response, key.id, ResponseBytes(r)), s.config.maxPayload)
            && (forall y :: y in t.inbound <==> y in s.inbound && y != x)
            && Heard(t.log) == Heard(s.log) + [Answered(x.context, r), Stored(key, r)]
            && t == s.(inbound := t.inbound, duplicates := t.duplicates, log := t.log)
            && Complete(s, env, key, r, now).ok
  {
    hide Heard, SendPayload, ResponseBytes, TablesOk, FragmentCount, Frame, Store;
    var key := x.context.key;
    ResponseLength(r);
    AnswerableExactly(s.config, r);
    EntryFound(s, x);
    var at := First(s.inbound, InboundIs(key));
    var u := Emit(s, [Answered(x.context, r)]).(inbound := Remove(s.inbound, at));
    RemovedExactly(s, x, at);
    CacheRoom(s);
    HeardOne(s.log, Answered(x.context, r));
    StoreHeard(u, key, r, now);
    StoredLast(u, key, r, now);
    var v := Store(u, key, r, now);
    var m := Message(Response, key.id, ResponseBytes(r));
    SendHeard(v, env, key.peer, m);
    SendsAll(v, env, key.peer, m);
    SendSucceeds(v, env, key.peer, m);
    var t := SendPayload(v, env, key.peer, m).state;
    assert u.log[|s.log|] == Answered(x.context, r);
    StoredStays(u.log, t.log, Answered(x.context, r));
    StoredStays(v.log, t.log, Stored(key, r));
  }

  lemma CacheRoom(s: State)
    requires TablesOk(s) && s.initialized
    ensures s.config.maxDuplicates > 0 && |s.duplicates| <= s.config.maxDuplicates
  {
  }

  lemma SendSucceeds(s: State, env: Env, to: Addr, m: Message)
    requires FragmentCount(|m.payload|, s.config.maxPayload) > 0 && forall i :: env.accepts(i)
    ensures SendPayload(s, env, to, m).ok
  {
    hide FragmentCount;
    AllPass(env.accepts, |s.log|, FragmentCount(|m.payload|, s.config.maxPayload));
  }

  lemma StoredLast(s: State, key: Key, r: CommandResult, now: nat)
    ensures var t := Store(s, key, r, now);
            && s.log <= t.log && Stored(key, r) in t.log
            && t.duplicates != [] && t.duplicates[|t.duplicates| - 1] == Cached(key, now, ResponseBytes(r))
  {
    hide ResponseBytes;
    var t := Store(s, key, r, now);
    assert t.log[|t.log| - 1] == Stored(key, r);
  }

  lemma EntryFound(s: State, x: Inbound)
    requires TablesOk(s) && x in s.inbound
    ensures var at := First(s.inbound, InboundIs(x.context.key)); at < |s.inbound| && s.inbound[at] == x
  {
    var i :| 0 <= i < |s.inbound| && s.inbound[i] == x;
    assert InboundIs(x.context.key)(s.inbound[i]);
    FirstIs(s.inbound, InboundIs(x.context.key), i);
  }

  lemma RemovedExactly(s: State, x: Inbound, at: nat)
    requires TablesOk(s) && at < |s.inbound| && s.inbound[at] == x
    ensures forall y :: y in Remove(s.inbound, at) <==> y in s.inbound && y != x
  {
    var r := Remove(s.inbound, at);
    forall y ensures y in r <==> y in s.inbound && y != x {
      if y in s.inbound && y != x {
        var i :| 0 <= i < |s.inbound| && s.inbound[i] == y;
        assert r[if i < at then i else i - 1] == y;
      }
      if y in r {
        var i :| 0 <= i < |r| && r[i] == y;
        assert s.inbound[if i < at then i else i + 1] == y;
      }
    }
  }

  /** Without an entry of that key, or before `Initialize`, nothing happens. */
  lemma CompletionRefusedExactly(s: State, env: Env, key: Key, r: CommandResult, now: nat)
    ensures (!s.initialized || forall i :: 0 <= i < |s.inbound| ==> s.inbound[i].context.key != key) ==>
              Complete(s, env, key, r, now) == Outcome(s, false)
  {
    hide Respond;
    var at := First(s.inbound, InboundIs(key));
    if at < |s.inbound| { assert InboundIs(key)(s.inbound[at]); }
  }

  /** A result without a wire form is observed and lost: nothing is sent, and the request is done with. */
  lemma CompletionWithoutWireForm(s: State, env: Env, x: Inbound, r: CommandResult, now: nat)
    requires TablesOk(s) && s.initialized && x in s.inbound
    requires |r.message| > 65535 || 7 + |r.message| > s.config.maxMessage
    ensures var o := Complete(s, env, x.context.key, r, now);
            && !o.ok && o.state.duplicates == s.duplicates
            && o.state.log == s.log + [Answered(x.context, r), Forgot(x.context.key, Unanswerable)]
            && forall y :: y in o.state.inbound <==> y in s.inbound && y != x
  {
    hide SendPayload, Store, TablesOk;
    AnswerableExactly(s.config, r);
    EntryFound(s, x);
    var at := First(s.inbound, InboundIs(x.context.key));
    RemovedExactly(s, x, at);
    assert (s.log + [Answered(x.context, r)]) + [Forgot(x.context.key, Unanswerable)]
        == s.log + [Answered(x.context, r), Forgot(x.context.key, Unanswerable)];
  }

  // ---------------------------------------------------------------- Update

  lemma InOrder<T>(xs: seq<T>, p: T -> bool, ys: seq<T>)
    requires ys == Filter(xs, p)
    ensures forall x :: x in ys <==> x in xs && p(x)
  {
  }

  /** The cache before its own expiry: the timeout answers, when they have a wire form, pushed in at the end. */
  lemma CacheWithAnswers(s: State, now: nat) returns (expired: seq<Inbound>)
    requires TablesOk(s) && s.initialized
    ensures forall x :: x in expired <==> x in s.inbound && !Within(now, x.accepted, s.config.inboundTimeout)
    ensures CacheAfterAnswers(s, now)
         == if s.config.maxMessage >= 48
            then Newest(s.duplicates + LateAnswers(expired, now), s.config.maxDuplicates) else s.duplicates
  {
    hide Filter, Newest, LateAnswers, TablesOk, Answerable;
    LateAnswerable(s.config);
    expired := Filter(s.inbound, Not(InboundLive(now, s.config)));
    InOrder(s.inbound, Not(InboundLive(now, s.config)), expired);
  }

  /** The reports of `log` from position `from` on. */
  ghost function News(log: Log, from: nat): Log
    requires from <= |Heard(log)|
  {
    Heard(log)[from..]
  }

  /**
   * What `Update` reports: every pending request at or past its limit is completed with code
   * 4, every inbound one at or past its limit is observed with code 8, and no other request is.
   */
  lemma TimedOutIsReported(s: State, env: Env, now: nat)
    requires TablesOk(s) && s.initialized
    ensures var t := Apply(s, DoUpdate(env, now));
            && Heard(s.log) <= Heard(t.log)
            && var news := News(t.log, |Heard(s.log)|);
            && (forall p :: p in s.pending && !Within(now, p.started, s.config.requestTimeout) ==>
                  Completed(p.key, CommandResult(false, 4, Ascii("ESP-NOW Command request timed out")), ByTimeout)
                  in news)
            && (forall x :: x in s.inbound && !Within(now, x.accepted, s.config.inboundTimeout) ==>
                  Answered(x.context, CommandResult(false, 8, Ascii("Inbound ESP-NOW Command request timed out")))
                  in news)
            && (forall e :: e in news && e.Completed? ==>
                  exists p :: p in s.pending && p.key == e.key && !Within(now, p.started, s.config.requestTimeout))
            && (forall e :: e in news && e.Answered? ==>
                  exists x :: x in s.inbound && x.context == e.context
                              && !Within(now, x.accepted, s.config.inboundTimeout))
  {
    hide Filter, CacheAfterAnswers, TablesOk, LateReports, Sweep, Completions, Heard;
    SweepExact(s, env, now);
    var t, c := Sweep(s, env, now), s.config;
    var dead, late := Filter(s.pending, Not(PendingLive(now, c))), Filter(s.inbound, Not(InboundLive(now, c)));
    InOrder(s.pending, Not(PendingLive(now, c)), dead);
    InOrder(s.inbound, Not(InboundLive(now, c)), late);
    var ends, reports := Completions(dead, TIMED_OUT, ByTimeout), LateReports(c, late);
    assert Heard(t.log) == Heard(s.log) + (ends + reports);
    assert News(t.log, |Heard(s.log)|) == ends + reports;
    CompletionsOf(dead);
    ReportsOf(c, late);
  }

  lemma CompletionsOf(xs: seq<Pending>)
    ensures forall p :: p in xs ==> Completed(p.key, TIMED_OUT, ByTimeout) in Completions(xs, TIMED_OUT, ByTimeout)
    ensures forall e :: e in Completions(xs, TIMED_OUT, ByTimeout) ==>
              e.Completed? && exists p :: p in xs && p.key == e.key
  {
    var es := Completions(xs, TIMED_OUT, ByTimeout);
    forall p | p in xs ensures Completed(p.key, TIMED_OUT, ByTimeout) in es {
      var i :| 0 <= i < |xs| && xs[i] == p;
      assert es[i] in es;
    }
    forall e | e in es ensures e.Completed? && exists p :: p in xs && p.key == e.key {
      var i :| 0 <= i < |es| && es[i] == e;
      assert xs[i] in xs;
    }
  }

  lemma {:induction false} ReportsOf(c: Config, xs: seq<Inbound>)
    ensures forall x :: x in xs ==> Answered(x.context, INBOUND_TIMED_OUT) in LateReports(c, xs)
    ensures forall e :: e in LateReports(c, xs) ==> !e.Completed?
    ensures forall e :: e in LateReports(c, xs) && e.Answered? ==> exists x :: x in xs && x.context == e.context
  {
    hide Answerable;
    if xs != [] {
      var front, last := xs[..|xs| - 1], xs[|xs| - 1];
      ReportsOf(c, front);
      assert xs == front + [last];
    }
  }

  // ---------------------------------------------------------------- Receive

  /** The frame is well formed and within the message limit. */
  predicate Acceptable(s: State, data: Bytes) {
    s.initialized && ParseFrame(data).Some? && ParseFrame(data).value.0.total <= s.config.maxMessage
  }

  /** Nothing happens on a frame that does not parse or announces more than the message limit. */
  lemma UnacceptableIsRefused(s: State, env: Env, peer: Addr, data: Bytes, now: nat)
    requires TablesOk(s) && !Acceptable(s, data)
    ensures Receive(s, env, peer, data, now) == Outcome(s, false)
  {
    hide Dispatch, Reassemble, ParseFrame;
  }

  /** A message of one fragment is handled when its fragment is the whole of it, and else refused. */
  lemma SingleFragment(s: State, env: Env, peer: Addr, data: Bytes, now: nat)
    requires TablesOk(s) && Acceptable(s, data) && ParseFrame(data).value.0.count == 1
    ensures var (h, bytes) := ParseFrame(data).value;
            Receive(s, env, peer, data, now)
            == if h.length == h.total then Dispatch(s, env, Key(peer, h.id), h.kind, bytes, now) else Outcome(s, false)
  {
    hide Dispatch, Reassemble, ParseFrame;
  }

  /** Where the fragment of this frame goes. */
  predicate Fits(c: Config, h: Header) {
    c.maxPayload > 26 && (c.maxPayload - 26) * h.index < h.total && (c.maxPayload - 26) * h.index + h.length <= h.total
  }

  /** A fragment beyond its message, one of another shape than the entry, and one a full table has no entry for. */
  lemma MisfitIsRefused(s: State, env: Env, peer: Addr, data: Bytes, now: nat)
    requires TablesOk(s) && Acceptable(s, data) && ParseFrame(data).value.0.count > 1
    requires var h := ParseFrame(data).value.0;
             || !Fits(s.config, h)
             || (exists x :: x in s.slots && x.key == Key(peer, h.id) && x.kind == h.kind
                             && (x.total != h.total || x.count != h.count))
             || (|s.slots| >= s.config.maxReassemblies
                 && forall x :: x in s.slots ==> x.key != Key(peer, h.id) || x.kind != h.kind)
    ensures Receive(s, env, peer, data, now) == Outcome(s, false)
  {
    hide Dispatch, ParseFrame, Settle, Take, First;
    var h := ParseFrame(data).value.0;
    var key := Key(peer, h.id);
    assert Start(Capacity(s.config.maxPayload), h.index) == (s.config.maxPayload - 26) * h.index;
    if Fits(s.config, h) {
      if x :| x in s.slots && x.key == key && x.kind == h.kind {
        var i :| 0 <= i < |s.slots| && s.slots[i] == x;
        SlotFound(s.slots, key, h.kind, i);
      } else {
        SlotMissing(s.slots, key, h.kind);
      }
    }
  }

  /**
   * A fragment that fits an entry: the entry's clock is set to this call; a new index is
   * copied in and counted; a repeated one changes nothing, and is refused if its bytes differ.
   */
  lemma FragmentIsTaken(s: State, env: Env, peer: Addr, data: Bytes, now: nat, h: Header, bytes: Bytes, at: nat)
    requires TablesOk(s) && Acceptable(s, data) && ParseFrame(data) == Some((h, bytes)) && |bytes| == h.length
    requires h.count > 1 && Fits(s.config, h)
    requires at < |s.slots| && s.slots[at].key == Key(peer, h.id) && s.slots[at].kind == h.kind
    requires s.slots[at].total == h.total && s.slots[at].count == h.count
    ensures var x, o := s.slots[at], Receive(s, env, peer, data, now);
            var offset := (s.config.maxPayload - 26) * h.index;
            && (h.index in x.received && x.buffer[offset..offset + h.length] != bytes ==>
                  o == Outcome(s.(slots := s.slots[at := x.(updated := now)]), false))
            && (h.index in x.received && x.buffer[offset..offset + h.length] == bytes && |x.received| != x.count
                && x.bytes <= x.total ==>
                  o == Outcome(s.(slots := s.slots[at := x.(updated := now)]), true))
            && (h.index !in x.received && |x.received| + 1 < x.count && x.bytes + h.length <= x.total ==>
                  o.ok && |o.state.slots| == |s.slots| && o.state == s.(slots := s.slots[at := o.state.slots[at]])
                  && Taken(x, o.state.slots[at], h.index, offset, bytes, now))
  {
    hide Dispatch, ParseFrame, First;
    assert Start(Capacity(s.config.maxPayload), h.index) == (s.config.maxPayload - 26) * h.index;
    SlotFound(s.slots, Key(peer, h.id), h.kind, at);
    if h.index !in s.slots[at].received {
      assert |s.slots[at].received + {h.index}| == |s.slots[at].received| + 1;
    }
  }

  /** `y` is `x` with one more fragment in place, and the time of the call. */
  predicate Taken(x: Slot, y: Slot, index: nat, offset: nat, bytes: Bytes, now: nat)
  {
    && y.received == x.received + {index} && y.bytes == x.bytes + |bytes| && y.updated == now
    && offset + |bytes| <= |y.buffer| && y.buffer[offset..offset + |bytes|] == bytes
    && y == x.(received := y.received, bytes := y.bytes, updated := y.updated, buffer := y.buffer)
  }

  /** The first fragment of a message opens an entry in its name, with the time of this call. */
  lemma FirstFragmentOpens(s: State, env: Env, peer: Addr, data: Bytes, now: nat)
    requires TablesOk(s) && Acceptable(s, data) && ParseFrame(data).value.0.count > 1
    requires var h := ParseFrame(data).value.0;
             && Fits(s.config, h) && |s.slots| < s.config.maxReassemblies
             && forall x :: x in s.slots ==> x.key != Key(peer, h.id) || x.kind != h.kind
    ensures var (h, bytes) := ParseFrame(data).value;
            var o, offset := Receive(s, env, peer, data, now), (s.config.maxPayload - 26) * h.index;
            && o.ok && |o.state.slots| == |s.slots| + 1 && o.state == s.(slots := s.slots + [o.state.slots[|s.slots|]])
            && var y := o.state.slots[|s.slots|];
               && y.key == Key(peer, h.id) && y.kind == h.kind && y.total == h.total && y.count == h.count
               && y.received == {h.index} && y.bytes == h.length && y.updated == now
               && y.buffer[offset..offset + h.length] == bytes
  {
    hide Dispatch, ParseFrame, First;
    var h := ParseFrame(data).value.0;
    assert Start(Capacity(s.config.maxPayload), h.index) == (s.config.maxPayload - 26) * h.index;
    SlotMissing(s.slots, Key(peer, h.id), h.kind);
  }

  // ---------------------------------------------------------------- requests and responses

  /** A request already being executed is neither executed nor answered again, and accepted. */
  lemma RequestInProgress(s: State, env: Env, x: Inbound, payload: Bytes, now: nat)
    requires TablesOk(s) && x in s.inbound
    ensures HandleRequest(s, env, x.context.key, payload, now) == Outcome(s, true)
  {
    hide Admit, SendPayload;
    var key := x.context.key;
    EntryFound(s, x);
    InboundHasEntry(s, x);
    forall i | 0 <= i < |s.duplicates| ensures s.duplicates[i].key != key {
      assert CachedHas(s.duplicates, s.duplicates[i].key);
    }
    FirstIs(s.duplicates, CachedIs(key), |s.duplicates|);
  }

  lemma InboundHasEntry(s: State, x: Inbound)
    requires x in s.inbound
    ensures InboundHas(s.inbound, x.context.key)
  {
  }

  /** What a request is answered with at once: by the policy, by the registry, or by the endpoint itself. */
  lemma RefusalsExactly(s: State, env: Env, key: Key, payload: Bytes)
    ensures DecodeRequest(payload).Some? && s.hasPolicy
            && !env.policy(Context(key, DecodeRequest(payload).value)).success ==>
              Verdict(s, env, key, payload) == Some(env.policy(Context(key, DecodeRequest(payload).value)))
    ensures DecodeRequest(payload).Some? && Passes(s, env, key, payload) && !s.hasHandler ==>
              Verdict(s, env, key, payload) == Some(env.registry(DecodeRequest(payload).value))
    ensures DecodeRequest(payload).None? ==>
              Verdict(s, env, key, payload) == Some(CommandResult(false, 5, Ascii("Malformed ESP-NOW Command request")))
    ensures Passes(s, env, key, payload) && s.hasHandler && |s.inbound| >= s.config.maxInbound ==>
              Verdict(s, env, key, payload)
              == Some(CommandResult(false, 6, Ascii("Inbound Command capacity exhausted")))
    ensures DecodeRequest(payload).Some? && Passes(s, env, key, payload) && s.hasHandler
            && |s.inbound| < s.config.maxInbound && !env.handler(Context(key, DecodeRequest(payload).value)) ==>
              Verdict(s, env, key, payload) == Some(CommandResult(false, 7, Ascii("Inbound Command handoff rejected")))
  {
    hide DecodeRequest;
  }

  /**
   * Whom a request is shown to when it is answered at once: the policy, if there is one; then
   * the registry, if there is no handler; and the observer gets the answer of whichever decided.
   */
  lemma ObserverHearsExactly(s: State, env: Env, key: Key, inv: TextInvocation, payload: Bytes, now: nat)
    requires TablesOk(s) && s.initialized && !Tracked(s, key) && DecodeRequest(payload) == Some(inv)
    ensures var log, context := HandleRequest(s, env, key, payload, now).state.log, Context(key, inv);
            var passes := s.hasPolicy ==> env.policy(context).success;
            && (s.hasPolicy ==> PolicyAsked(context) in log)
            && (!passes ==> Answered(context, env.policy(context)) in log)
            && (passes && !s.hasHandler ==>
                  Invoked(context, env.registry(inv)) in log && Answered(context, env.registry(inv)) in log)
            && (passes && s.hasHandler && |s.inbound| < s.config.maxInbound ==> Handed(context) in log)
  {
    hide Admit, Respond, SendPayload, First, TablesOk, Tracked, Verdict, DecodeRequest, Callbacks;
    TrackedByFirst(s, key);
    var u := Emit(s, [Admitted(key)]);
    AdmitIs(u, env, key, payload, now);
    CallbacksHear(u, env, key, inv, payload);
    var v := Emit(u, Callbacks(u, env, key, payload));
    if Verdict(u, env, key, payload).Some? { RespondGrows(v, env, key, Verdict(u, env, key, payload).value, now); }
    var t := HandleRequest(s, env, key, payload, now).state;
    assert forall e :: e in Callbacks(u, env, key, payload) ==> e in v.log;
    assert v.log <= t.log;
  }

  lemma CallbacksHear(s: State, env: Env, key: Key, inv: TextInvocation, payload: Bytes)
    requires DecodeRequest(payload) == Some(inv)
    ensures var es, context := Callbacks(s, env, key, payload), Context(key, inv);
            var passes := s.hasPolicy ==> env.policy(context).success;
            && (s.hasPolicy ==> PolicyAsked(context) in es)
            && (!passes ==> Answered(context, env.policy(context)) in es)
            && (passes && !s.hasHandler ==>
                  Invoked(context, env.registry(inv)) in es && Answered(context, env.registry(inv)) in es)
            && (passes && s.hasHandler && |s.inbound| < s.config.maxInbound ==> Handed(context) in es)
  {
    hide DecodeRequest;
  }

  /** A response completes the first request of that peer and identifier and no other; else nothing happens. */
  lemma ResponseExactly(s: State, key: Key, payload: Bytes)
    ensures var o := HandleResponse(s, key, payload);
            && (o.ok <==> DecodeResponse(payload).Some? && exists p :: p in s.pending && p.key == key)
            && (!o.ok ==> o.state == s)
            && (o.ok ==>
                  o.state.log == s.log + [Completed(key, DecodeResponse(payload).value, ByResponse)]
                  && exists i :: 0 <= i < |s.pending| && s.pending[i].key == key
                       && (forall j :: 0 <= j < i ==> s.pending[j].key != key)
                       && o.state.pending == s.pending[..i] + s.pending[i + 1..])
  {
    hide DecodeResponse;
    var at := First(s.pending, PendingIs(key));
    if at < |s.pending| {
      assert s.pending[at] in s.pending && PendingIs(key)(s.pending[at]);
    } else {
      forall p | p in s.pending ensures p.key != key {
        var i :| 0 <= i < |s.pending| && s.pending[i] == p;
        assert !PendingIs(key)(s.pending[i]);
      }
    }
  }

  // ---------------------------------------------------------------- handed over, answered later

  /** The request `m` is delivered to an endpoint that does not know it and whose handler takes `inv`. */
  ghost predicate HandsOver(s: State, actions: seq<Action>, last: Action, peer: Addr, m: Message, inv: TextInvocation)
    requires TablesOk(s)
  {
    var u, context := Run(s, actions), Context(Key(peer, m.id), inv);
    && Delivers(s, actions, last, peer, m) && m.kind == Request && last.DoReceive?
    && !Tracked(u, context.key) && (u.hasPolicy ==> last.env.policy(context).success)
    && u.hasHandler && |u.inbound| < u.config.maxInbound && last.env.handler(context)
  }

  /** A delivered request that the handler takes is in the inbound table, as it was sent, with the time it came. */
  lemma DeliveredRequestIsHandedOver(s: State, actions: seq<Action>, last: Action, peer: Addr, m: Message,
                                     inv: TextInvocation)
    requires TablesOk(s) && HandsOver(s, actions, last, peer, m, inv) && DecodeRequest(m.payload) == Some(inv)
    requires last.DoReceive?
    ensures var t, context := Run(s, actions + [last]), Context(Key(peer, m.id), inv);
            Inbound(context, last.now) in t.inbound && Handed(context) in t.log
  {
    hide Delivers, TablesOk, Tracked, Run, DecodeRequest, Admit, Respond, First;
    var key, context := Key(peer, m.id), Context(Key(peer, m.id), inv);
    var slots := DeliveredIsDispatched(s, actions, last, peer, m);
    var u := Run(s, actions).(slots := slots);
    var v := Emit(u, [Assembled(key, Request, m.payload)]);
    EmitTables(u, [Assembled(key, Request, m.payload)], key);
    OtherSlots(Run(s, actions), slots, last.env, key, m.payload);
    TrackedByFirst(v, key);
    var w := Emit(v, [Admitted(key)]);
    AdmitIs(w, last.env, key, m.payload, last.now);
    var es := Callbacks(w, last.env, key, m.payload);
    assert es[|es| - 1] == Handed(context);
    var t := Run(s, actions + [last]);
    assert t.inbound == w.inbound + [Inbound(context, last.now)] && t.log == w.log + es;
    assert t.inbound[|w.inbound|] == Inbound(context, last.now) && t.log[|t.log| - 1] == Handed(context);
  }

  /** `last` completes the entry `x` with a result that has a wire form, and the radio takes every frame of it. */
  ghost predicate CompletesWith(s: State, actions: seq<Action>, last: Action, x: Inbound, r: CommandResult)
    requires TablesOk(s)
  {
    var u := Run(s, actions);
    && last.DoComplete? && last.key == x.context.key && last.result == r
    && u.initialized && x in u.inbound && (forall i :: last.env.accepts(i))
    && |r.message| <= 65535 && 7 + |r.message| <= u.config.maxMessage
    && FragmentCount(7 + |r.message|, u.config.maxPayload) > 0
  }

  /** What `CompleteInbound` does to the entry of a request, on a run. */
  lemma CompletedRequestIsAnswered(s: State, actions: seq<Action>, last: Action, x: Inbound, r: CommandResult)
    requires TablesOk(s) && CompletesWith(s, actions, last, x, r)
    ensures var t, key := Run(s, actions + [last]), x.context.key;
            && Answered(x.context, r) in t.log && Stored(key, r) in t.log
            && FullySent(t.log, key.peer, Message(Response, key.id, ResponseBytes(r)),
                         Run(s, actions).config.maxPayload)
  {
    hide TablesOk, Run, Apply, FullySent, ResponseBytes, FragmentCount;
    RunLast(s, actions, last);
    CompletionIsAnswered(Run(s, actions), last.env, x, r, last.now);
  }

  /** A log only grows along a run. */
  lemma LogGrows(s: State, actions: seq<Action>, more: seq<Action>, e: Event)
    requires TablesOk(s) && e in Run(s, actions).log
    ensures e in Run(s, actions + more).log
  {
    hide TablesOk, Run, Tally, Debt, Missing, Slack;
    RunConcat(s, actions, more);
    RunKeeps(Run(s, actions), more, Key(0, 0));
    StoredStays(Run(s, actions).log, Run(s, actions + more).log, e);
  }

  /**
   * Round trip of a request handed over and completed later. A invokes a command at B; its
   * frames reach B in any order among other calls; B's handler takes the request, and at
   * some later time, the request still being in the inbound table, `CompleteInbound` gives
   * the result `r`; the frames of that answer reach A in any order while the request is
   * pending. Then B's handler was given exactly the text-normalised invocation, the whole
   * answer left B, and A completes the request exactly once, with `r`.
   */
  lemma CallCompletesWithLaterAnswer(c: Config, before: seq<Action>, invoke: Action, sb: State, there: seq<Action>,
                                     reached: Action, meanwhile: seq<Action>, completes: Action, back: seq<Action>,
                                     returned: Action, a: Addr, id: U64, r: CommandResult)
    requires invoke.DoInvoke? && reached.DoReceive? && CountsFit(invoke.invocation)
    requires Call(Lifetime(c, before), invoke.env, invoke.peer, invoke.invocation, invoke.now).ok
    requires id == DrawId(Lifetime(c, before).nextId) && TablesOk(sb)
    requires HandsOver(sb, there, reached, a, Message(Request, id, RequestBytes(invoke.invocation)),
                       Normalise(invoke.invocation))
    requires CompletesWith(sb, there + [reached] + meanwhile, completes,
                           Inbound(Context(Key(a, id), Normalise(invoke.invocation)), reached.now), r)
    requires Delivers(Lifetime(c, before + [invoke]), back, returned, invoke.peer,
                      Message(Response, id, ResponseBytes(r)))
    requires Waiting(Run(Lifetime(c, before + [invoke]), back).pending, Key(invoke.peer, id)) > 0
    requires Lifetime(c, before + [invoke] + back + [returned]).drawn <= MAXIMUM_IDS
    ensures var context := Context(Key(a, id), Normalise(invoke.invocation));
            var b := Run(sb, there + [reached] + meanwhile + [completes]);
            && Handed(context) in b.log && Answered(context, r) in b.log && Stored(Key(a, id), r) in b.log
            && FullySent(b.log, a, Message(Response, id, ResponseBytes(r)),
                         Run(sb, there + [reached] + meanwhile).config.maxPayload)
    ensures var t := Lifetime(c, before + [invoke] + back + [returned]);
            && Completed(Key(invoke.peer, id), r, ByResponse) in t.log
            && Tally(t.log, Ends, Key(invoke.peer, id)) == 1 && Waiting(t.pending, Key(invoke.peer, id)) == 0
  {
    hide Delivers, TablesOk, Tracked, ResponseBytes, RequestBytes, Run, Waiting, Tally, FragmentCount, FullySent, Call,
         DecodeRequest, Normalise, CountsFit, Encodable, HandsOver, CompletesWith;
    var context := Context(Key(a, id), Normalise(invoke.invocation));
    CalledIsEncodable(Lifetime(c, before), invoke.env, invoke.peer, invoke.invocation, invoke.now);
    RequestRoundTrip(invoke.invocation);
    DeliveredRequestIsHandedOver(sb, there, reached, a, Message(Request, id, RequestBytes(invoke.invocation)),
                                 Normalise(invoke.invocation));
    LogGrows(sb, there + [reached], meanwhile + [completes], Handed(context));
    assert there + [reached] + (meanwhile + [completes]) == there + [reached] + meanwhile + [completes];
    CompletedRequestIsAnswered(sb, there + [reached] + meanwhile, completes, Inbound(context, reached.now), r);
    AnsweredText(sb, there + [reached] + meanwhile, completes, Inbound(context, reached.now), r);
    FreshOk(c);
    RunConcat(Fresh(c), before + [invoke], back + [returned]);
    assert before + [invoke] + (back + [returned]) == before + [invoke] + back + [returned];
    DeliveredResponseCompletes(Lifetime(c, before + [invoke]), back, returned, invoke.peer, id, r);
    CompletedOnce(c, before + [invoke] + back + [returned], Key(invoke.peer, id), r);
  }

  lemma AnsweredText(s: State, actions: seq<Action>, last: Action, x: Inbound, r: CommandResult)
    requires TablesOk(s) && CompletesWith(s, actions, last, x, r)
    ensures FitsText(r.message)
  {
  }

  lemma CalledIsEncodable(s: State, env: Env, peer: Addr, inv: Invocation, now: nat)
    requires Call(s, env, peer, inv, now).ok
    ensures Encodable(inv)
  {
    hide Encodable, RequestBytes, SendPayload;
  }
}
