/**
 * Where everything in an endpoint's log comes from. Each event is justified by earlier
 * ones: a frame by the request or answer it carries, an answer by the invocation it was
 * produced for, an invocation by the message it was decoded from.
 */
module CommandProvenance {
  import opened Bytes
  import opened CommandCodec
  import opened CommandFragments
  import opened CommandModel
  import opened CommandRuns
  import opened Sending
  import opened Tables

  // ---------------------------------------------------------------- justifications

  ghost predicate Requested(log: Log, key: Key) { exists inv, p :: Submitted(key, inv, p) in log }

  /** A request with this invocation was put together. */
  ghost predicate Decoded(log: Log, context: Context) {
    exists p :: Assembled(context.key, Request, p) in log && DecodeRequest(p) == Some(context.invocation)
  }

  ghost predicate Received(log: Log, key: Key) { exists p :: Assembled(key, Request, p) in log }

  ghost predicate Undecodable(log: Log, key: Key) {
    exists p :: Assembled(key, Request, p) in log && DecodeRequest(p).None?
  }

  ghost predicate Reported(log: Log, key: Key, r: CommandResult) {
    exists context :: Answered(context, r) in log && context.key == key
  }

  /** `r` is what the receiver produced for `key`, or one of its own refusals. */
  ghost predicate Produced(log: Log, key: Key, r: CommandResult) {
    Reported(log, key, r) || (r == MALFORMED && Undecodable(log, key))
      || (r in {EXHAUSTED, NOT_HANDED} && Received(log, key))
  }

  ghost predicate Remembered(log: Log, key: Key, encoded: Bytes) {
    exists r :: Stored(key, r) in log && ResponseBytes(r) == encoded
  }

  /** A message this endpoint has reason to send to `to`. */
  ghost predicate Origin(log: Log, to: Addr, m: Message) {
    match m.kind
    case Request => exists inv :: Submitted(Key(to, m.id), inv, m.payload) in log
    case Response => Remembered(log, Key(to, m.id), m.payload)
  }

  ghost predicate Replied(log: Log, key: Key, r: CommandResult) {
    exists p :: Assembled(key, Response, p) in log && DecodeResponse(p) == Some(r)
  }

  ghost predicate Justified(e: Event, log: Log, limit: nat) {
    match e
    case Submitted(k, inv, p) => Encodable(inv) && p == RequestBytes(inv) && |p| < SMALLEST_OVERFLOW
    case Completed(k, r, cause) => Requested(log, k) && (cause.ByResponse? ==> Replied(log, k, r))
    case Transmitted(to, frame, m, i) =>
      i < FragmentCount(|m.payload|, limit) && frame == Frame(limit, m, i) && Origin(log, to, m)
    case Admitted(k) => Received(log, k)
    case PolicyAsked(context) => Decoded(log, context)
    case Handed(context) => Decoded(log, context)
    case Invoked(context, _) => Decoded(log, context)
    case Answered(context, _) => Decoded(log, context)
    case Stored(k, r) => FitsText(r.message) && Produced(log, k, r)
    case _ => true
  }

  ghost predicate AllJustified(log: Log, limit: nat) { forall e :: e in log ==> Justified(e, log, limit) }

  ghost predicate TablesJustified(s: State) {
    && (forall i :: 0 <= i < |s.pending| ==> Requested(s.log, s.pending[i].key))
    && (forall i :: 0 <= i < |s.inbound| ==> Decoded(s.log, s.inbound[i].context))
    && (forall i :: 0 <= i < |s.duplicates| ==> Remembered(s.log, s.duplicates[i].key, s.duplicates[i].encoded))
  }

  /** Requests too short to overflow a count, in frames of a common limit. */
  predicate Compatible(c: Config, limit: nat) { c.maxPayload == limit && c.maxMessage < SMALLEST_OVERFLOW }

  ghost predicate Sound(s: State, limit: nat) {
    AllJustified(s.log, limit) && TablesJustified(s) && (s.initialized ==> Compatible(s.config, limit))
  }

  /** A justification outlives anything appended later. */
  lemma JustifiedLater(e: Event, a: Log, b: Log, limit: nat)
    requires a <= b && Justified(e, a, limit)
    ensures Justified(e, b, limit)
  {
    hide Encodable, RequestBytes, ResponseBytes, DecodeRequest, DecodeResponse, Frame, FragmentCount;
    assert forall x :: x in a ==> x in b;
  }

  lemma TablesLater(s: State, b: Log)
    requires s.log <= b && TablesJustified(s)
    ensures TablesJustified(s.(log := b))
  {
    hide ResponseBytes, DecodeRequest;
    assert forall x :: x in s.log ==> x in b;
  }

  /** Appending events that are justified in the longer log. */
  lemma EmitSound(s: State, es: Log, limit: nat)
    requires Sound(s, limit) && forall i :: 0 <= i < |es| ==> Justified(es[i], s.log + es, limit)
    ensures Sound(Emit(s, es), limit)
  {
    hide Justified, TablesJustified;
    forall e | e in s.log + es ensures Justified(e, s.log + es, limit) {
      if e in s.log { JustifiedLater(e, s.log, s.log + es, limit); }
    }
    TablesLater(s, s.log + es);
  }

  // ---------------------------------------------------------------- sending and answering

  lemma SendSound(s: State, env: Env, to: Addr, m: Message, limit: nat)
    requires Sound(s, limit) && s.config.maxPayload == limit && Origin(s.log, to, m)
    ensures Sound(SendPayload(s, env, to, m).state, limit)
  {
    hide Frame, Pack, Sound;
    var n := FragmentCount(|m.payload|, limit);
    var k := Passed(env.accepts, |s.log|, n);
    var es := Sends(limit, to, m, k) + if k < n then [Refused(to, m, k)] else [];
    assert Origin(s.log + es, to, m) by { assert forall x :: x in s.log ==> x in s.log + es; }
    EmitSound(s, es, limit);
  }

  lemma StoreSound(s: State, key: Key, result: CommandResult, now: nat, limit: nat)
    requires Sound(s, limit) && FitsText(result.message) && Produced(s.log, key, result)
    ensures Sound(Store(s, key, result, now), limit)
    ensures Origin(Store(s, key, result, now).log, key.peer, Message(Response, key.id, ResponseBytes(result)))
  {
    hide ResponseBytes, AllJustified, DecodeRequest;
    var t := Store(s, key, result, now);
    var full := s.duplicates != [] && |s.duplicates| >= s.config.maxDuplicates;
    var es: Log := (if full then [Forgot(s.duplicates[0].key, Evicted)] else []) + [Stored(key, result)];
    assert t.log == s.log + es;
    assert forall x :: x in s.log ==> x in t.log;
    EmitSound(s, es, limit);
    assert Stored(key, result) in t.log;
    assert Remembered(t.log, key, ResponseBytes(result));
  }

  lemma RespondSound(s: State, env: Env, key: Key, result: CommandResult, now: nat, limit: nat)
    requires Sound(s, limit) && s.initialized && Produced(s.log, key, result)
    ensures Sound(Respond(s, env, key, result, now).state, limit)
  {
    hide ResponseBytes, AllJustified, TablesJustified, SendPayload, Origin, Produced;
    if Answerable(s.config, result) {
      StoreSound(s, key, result, now, limit);
      SendSound(Store(s, key, result, now), env, key.peer, Message(Response, key.id, ResponseBytes(result)), limit);
    } else {
      EmitSound(s, [Forgot(key, Unanswerable)], limit);
    }
  }

  // ---------------------------------------------------------------- requests

  lemma HandleRequestSound(s: State, env: Env, key: Key, payload: Bytes, now: nat, limit: nat)
    requires Sound(s, limit) && s.initialized && Assembled(key, Request, payload) in s.log
    ensures Sound(HandleRequest(s, env, key, payload, now).state, limit)
  {
    hide AllJustified, Admit, SendPayload, Respond, DecodeRequest, ResponseBytes;
    var at := First(s.duplicates, CachedIs(key));
    if at < |s.duplicates| {
      assert CachedIs(key)(s.duplicates[at]);
      SendSound(s, env, key.peer, Message(Response, key.id, s.duplicates[at].encoded), limit);
    } else if First(s.inbound, InboundIs(key)) == |s.inbound| {
      var s1 := Emit(s, [Admitted(key)]);
      assert Assembled(key, Request, payload) in s1.log;
      EmitSound(s, [Admitted(key)], limit);
      AdmitSound(s1, env, key, payload, now, limit);
    }
  }

  lemma AdmitSound(s: State, env: Env, key: Key, payload: Bytes, now: nat, limit: nat)
    requires Sound(s, limit) && s.initialized && Assembled(key, Request, payload) in s.log
    ensures Sound(Admit(s, env, key, payload, now).state, limit)
  {
    hide AllJustified, Admit, Respond, DecodeRequest, ResponseBytes;
    var pre, r := AdmitShape(s, env, key, payload, now);
    var s1 := Emit(s, pre);
    assert Assembled(key, Request, payload) in s1.log;
    forall i | 0 <= i < |pre| ensures Justified(pre[i], s1.log, limit) {
      assert About(pre[i], key, payload);
      assert Decoded(s1.log, pre[i].context);
    }
    EmitSound(s, pre, limit);
    if r.Some? {
      AnswerIsProduced(s.log, pre, key, payload, r.value);
      RespondSound(s1, env, key, r.value, now, limit);
    } else {
      assert Decoded(s1.log, Context(key, DecodeRequest(payload).value));
    }
  }

  lemma AnswerIsProduced(log: Log, pre: Log, key: Key, payload: Bytes, r: CommandResult)
    requires AnswerFrom(pre, key, payload, r) && Assembled(key, Request, payload) in log
    ensures Produced(log + pre, key, r)
  {
    hide DecodeRequest;
    var all := log + pre;
    assert Assembled(key, Request, payload) in all;
    if e :| e in pre && e.Answered? && e.result == r && About(e, key, payload) {
      assert Answered(e.context, r) in all;
      assert Reported(all, key, r);
    }
  }

  lemma DispatchSound(s: State, env: Env, key: Key, kind: MessageType, payload: Bytes, now: nat, limit: nat)
    requires Sound(s, limit) && s.initialized
    ensures Sound(Dispatch(s, env, key, kind, payload, now).state, limit)
  {
    hide AllJustified, HandleRequest, DecodeRequest, DecodeResponse, ResponseBytes;
    var s1 := Emit(s, [Assembled(key, kind, payload)]);
    EmitSound(s, [Assembled(key, kind, payload)], limit);
    assert Assembled(key, kind, payload) in s1.log;
    match kind {
      case Request => HandleRequestSound(s1, env, key, payload, now, limit);
      case Response =>
        var at := First(s1.pending, PendingIs(key));
        if DecodeResponse(payload).Some? && at < |s1.pending| {
          assert PendingIs(key)(s1.pending[at]);
          var e := Completed(key, DecodeResponse(payload).value, ByResponse);
          RepliedNow(s1, key, payload, at);
          EmitSound(s1, [e], limit);
        }
    }
  }

  lemma RepliedNow(s: State, key: Key, payload: Bytes, at: nat)
    requires TablesJustified(s) && Assembled(key, Response, payload) in s.log && DecodeResponse(payload).Some?
    requires at < |s.pending| && s.pending[at].key == key
    ensures var e := Completed(key, DecodeResponse(payload).value, ByResponse);
            Requested(s.log + [e], key) && Replied(s.log + [e], key, e.result)
  {
    hide DecodeResponse, DecodeRequest, ResponseBytes;
    var e := Completed(key, DecodeResponse(payload).value, ByResponse);
    assert forall x :: x in s.log ==> x in s.log + [e];
    assert Requested(s.log, s.pending[at].key);
  }

  // ---------------------------------------------------------------- all calls

  lemma ReceiveSound(s: State, env: Env, peer: Addr, data: Bytes, now: nat, limit: nat)
    requires TablesOk(s) && Sound(s, limit)
    ensures Sound(Receive(s, env, peer, data, now).state, limit)
  {
    hide Dispatch, Reassemble, AllJustified, ParseFrame;
    var parsed := ParseFrame(data);
    if s.initialized && parsed.Some? {
      var (h, bytes) := parsed.value;
      var key := Key(peer, h.id);
      if h.total <= s.config.maxMessage {
        if h.count == 1 {
          DispatchSound(s, env, key, h.kind, bytes, now, limit);
        } else {
          var r := Reassemble(s.slots, s.config, key, h, bytes, now);
          if r.Whole? { DispatchSound(s.(slots := r.slots), env, key, h.kind, r.payload, now, limit); }
        }
      }
    }
  }

  lemma CallSound(s: State, env: Env, peer: Addr, inv: Invocation, now: nat, limit: nat)
    requires Sound(s, limit)
    ensures Sound(Call(s, env, peer, inv, now).state, limit)
  {
    hide AllJustified, SendPayload, RequestBytes, Encodable, DecodeRequest, ResponseBytes;
    if s.initialized && inv.path != [] && |s.pending| < s.config.maxOutstanding
       && Encodable(inv) && |RequestBytes(inv)| <= s.config.maxMessage {
      var key := Key(peer, DrawId(s.nextId));
      var started := Submitted(key, inv, RequestBytes(inv));
      var s1 := s.(nextId := NextId(s.nextId), drawn := s.drawn + 1);
      EmitSound(s1, [started], limit);
      var s2 := Emit(s1, [started]).(pending := s.pending + [Pending(key, now)]);
      assert started in s2.log;
      assert Requested(s2.log, key);
      var m := Message(Request, key.id, RequestBytes(inv));
      SendSound(s2, env, peer, m, limit);
      var es := SendShape(s2, env, peer, m);
      var o := SendPayload(s2, env, peer, m).state;
      var ended := Completed(key, SEND_FAILED, BySendFailure);
      assert started in o.log + [ended];
      EmitSound(o, [ended], limit);
      assert forall i :: 0 <= i < |s.pending| ==> o.pending[i] == s.pending[i];
      Shorten(Emit(o, [ended]), s.pending, limit);
    }
  }

  lemma Shorten(s: State, pending: seq<Pending>, limit: nat)
    requires Sound(s, limit) && pending <= s.pending
    ensures Sound(s.(pending := pending), limit)
  {
    hide AllJustified, DecodeRequest, ResponseBytes;
  }

  lemma CompleteSound(s: State, env: Env, key: Key, result: CommandResult, now: nat, limit: nat)
    requires Sound(s, limit)
    ensures Sound(Complete(s, env, key, result, now).state, limit)
  {
    hide AllJustified, Respond, DecodeRequest, ResponseBytes;
    var at := First(s.inbound, InboundIs(key));
    if s.initialized && at < |s.inbound| {
      assert InboundIs(key)(s.inbound[at]);
      AnsweredSound(s, s.inbound[at].context, result, limit);
      var s1 := Emit(s, [Answered(s.inbound[at].context, result)]).(inbound := Remove(s.inbound, at));
      RespondSound(s1, env, key, result, now, limit);
    }
  }

  lemma AnsweredSound(s: State, context: Context, result: CommandResult, limit: nat)
    requires Sound(s, limit) && Decoded(s.log, context)
    ensures var t := Emit(s, [Answered(context, result)]); Sound(t, limit) && Produced(t.log, context.key, result)
  {
    hide AllJustified, TablesJustified, DecodeRequest;
    var e := Answered(context, result);
    assert forall x :: x in s.log ==> x in s.log + [e];
    assert e in s.log + [e];
    EmitSound(s, [e], limit);
    assert Reported(s.log + [e], context.key, result);
  }

  lemma {:induction false} ExpireInboundSound(s: State, env: Env, xs: seq<Inbound>, now: nat, limit: nat)
    requires Sound(s, limit) && s.initialized && forall i :: 0 <= i < |xs| ==> Decoded(s.log, xs[i].context)
    ensures var t := ExpireInbound(s, env, xs, now); Sound(t, limit) && t.initialized && s.log <= t.log
  {
    hide Sound, Respond, Decoded, Produced;
    if xs != [] {
      var front, last := xs[..|xs| - 1], xs[|xs| - 1];
      ExpireInboundSound(s, env, front, now, limit);
      var t := ExpireInbound(s, env, front, now);
      DecodedLater(s.log, t.log, last.context);
      AnsweredSound(t, last.context, INBOUND_TIMED_OUT, limit);
      var t1 := Emit(t, [Answered(last.context, INBOUND_TIMED_OUT)]);
      RespondSound(t1, env, last.context.key, INBOUND_TIMED_OUT, now, limit);
      RespondGrows(t1, env, last.context.key, INBOUND_TIMED_OUT, now);
    }
  }

  lemma DecodedLater(a: Log, b: Log, context: Context)
    requires a <= b && Decoded(a, context)
    ensures Decoded(b, context)
  {
    hide DecodeRequest;
    assert forall x :: x in a ==> x in b;
  }

  lemma RespondGrows(s: State, env: Env, key: Key, result: CommandResult, now: nat)
    ensures var t := Respond(s, env, key, result, now).state; s.log <= t.log && t.initialized == s.initialized
  {
    hide SendPayload, ResponseBytes;
    if Answerable(s.config, result) {
      var es := SendShape(Store(s, key, result, now), env, key.peer, Message(Response, key.id, ResponseBytes(result)));
    }
  }

  lemma SweepSound(s: State, env: Env, now: nat, limit: nat)
    requires TablesOk(s) && Sound(s, limit)
    ensures Sound(Sweep(s, env, now), limit)
  {
    hide AllJustified, ExpireInbound, DecodeRequest, ResponseBytes, Tally, TablesOk;
    if s.initialized {
      var pendingLive, inboundLive := PendingLive(now, s.config), InboundLive(now, s.config);
      var ended := Completions(Filter(s.pending, Not(pendingLive)), TIMED_OUT, ByTimeout);
      PendingSweepSound(s, pendingLive, limit);
      var s1 := s.(pending := Filter(s.pending, pendingLive), log := s.log + ended);
      var live, dead := Filter(s.inbound, inboundLive), Filter(s.inbound, Not(inboundLive));
      forall x | x in s.inbound ensures Decoded(s1.log, x.context) {
        var i :| 0 <= i < |s1.inbound| && s1.inbound[i] == x;
      }
      forall i | 0 <= i < |live| ensures Decoded(s1.log, live[i].context) { assert live[i] in s.inbound; }
      forall i | 0 <= i < |dead| ensures Decoded(s1.log, dead[i].context) { assert dead[i] in s.inbound; }
      var s2 := s1.(inbound := live);
      ExpireInboundSound(s2, env, dead, now, limit);
      var s3 := ExpireInbound(s2, env, dead, now);
      ExpireCacheSound(s3.(slots := Filter(s3.slots, SlotLive(now, s.config))), now, limit);
    }
  }

  lemma PendingSweepSound(s: State, p: Pending -> bool, limit: nat)
    requires Sound(s, limit)
    ensures Sound(s.(pending := Filter(s.pending, p),
                     log := s.log + Completions(Filter(s.pending, Not(p)), TIMED_OUT, ByTimeout)), limit)
  {
    hide AllJustified, DecodeRequest, ResponseBytes;
    var live, dead := Filter(s.pending, p), Filter(s.pending, Not(p));
    var es := Completions(dead, TIMED_OUT, ByTimeout);
    assert forall x :: x in s.log ==> x in s.log + es;
    forall x | x in s.pending ensures Requested(s.log + es, x.key) {
      var i :| 0 <= i < |s.pending| && s.pending[i] == x;
    }
    forall i | 0 <= i < |es| ensures Justified(es[i], s.log + es, limit) { assert dead[i] in s.pending; }
    EmitSound(s, es, limit);
    forall i | 0 <= i < |live| ensures Requested(s.log + es, live[i].key) { assert live[i] in s.pending; }
  }

  lemma ExpireCacheSound(s: State, now: nat, limit: nat)
    requires Sound(s, limit)
    ensures Sound(ExpireCache(s, now), limit)
  {
    hide AllJustified, DecodeRequest, ResponseBytes;
    var live := CachedLive(now, s.config);
    var kept := Filter(s.duplicates, live);
    var es := Losses(CachedKeys(Filter(s.duplicates, Not(live))), Expired);
    EmitSound(s, es, limit);
    assert forall x :: x in s.log ==> x in s.log + es;
    forall i | 0 <= i < |kept| ensures Remembered(s.log + es, kept[i].key, kept[i].encoded) {
      assert kept[i] in s.duplicates;
      var j :| 0 <= j < |s.duplicates| && s.duplicates[j] == kept[i];
      assert Remembered(s.log, s.duplicates[j].key, s.duplicates[j].encoded);
    }
  }

  lemma StopSound(s: State, limit: nat)
    requires Sound(s, limit)
    ensures Sound(Stop(s), limit)
  {
    hide AllJustified, DecodeRequest, ResponseBytes;
    if s.initialized {
      var a := Completions(s.pending, SHUT_DOWN, ByShutdown);
      var b := Losses(InboundKeys(s.inbound), ShutDown);
      var c := Losses(CachedKeys(s.duplicates), ShutDown);
      var es := a + b + c;
      assert forall x :: x in s.log ==> x in s.log + es;
      forall i | 0 <= i < |es| ensures Justified(es[i], s.log + es, limit) {
        if i < |a| { assert Requested(s.log, s.pending[i].key); }
      }
      EmitSound(s, es, limit);
    } else {
      assert s.log + [] == s.log;
    }
  }

  /** Every call of an endpoint leaves every event in its log justified. */
  lemma ApplySound(s: State, a: Action, limit: nat)
    requires TablesOk(s) && Sound(s, limit) && (a.Initialize? ==> Compatible(a.config, limit))
    ensures Sound(Apply(s, a), limit)
  {
    hide AllJustified, TablesJustified, Stop, Call, Receive, Complete, Sweep;
    match a
    case Initialize(c) => StopSound(s, limit); StoppedSound(s, c, limit);
    case Shutdown => StopSound(s, limit);
    case SetPolicy(p) => FlagSound(s, p, limit);
    case SetHandler(p) => FlagSound(s, p, limit);
    case DoInvoke(env, peer, inv, now) => CallSound(s, env, peer, inv, now, limit);
    case DoReceive(env, peer, data, now) => ReceiveSound(s, env, peer, data, now, limit);
    case DoComplete(env, key, result, now) => CompleteSound(s, env, key, result, now, limit);
    case DoUpdate(env, now) => SweepSound(s, env, now, limit);
  }

  lemma FlagSound(s: State, p: bool, limit: nat)
    requires Sound(s, limit)
    ensures Sound(s.(hasPolicy := p), limit) && Sound(s.(hasHandler := p), limit)
  {
  }

  lemma StoppedSound(s: State, c: Config, limit: nat)
    requires Sound(Stop(s), limit) && Compatible(c, limit)
    ensures Sound(Configure(s, c).state, limit)
  {
    hide AllJustified, Stop;
  }
}
