/**
 * When a complete request is executed and when it is executed again
 * (src/ESPressio_ESPNowCommandEndpoint.hpp:480-556): each callback sees it exactly when the
 * receiver does not recognise it and the guards before that callback let it through, and the
 * receiver recognises it afterwards exactly when the answer had a wire form.
 */
module Reexecution {
  import opened Bytes
  import opened CommandCodec
  import opened CommandFragments
  import opened CommandModel
  import opened CommandRuns
  import opened Tables

  // ---------------------------------------------------------------- what a request meets

  /** The payload decodes and no policy refuses it. */
  predicate Passes(s: State, env: Env, key: Key, payload: Bytes) {
    var decoded := DecodeRequest(payload);
    decoded.Some? && (s.hasPolicy ==> env.policy(Context(key, decoded.value)).success)
  }

  predicate Room(s: State) { |s.inbound| < s.config.maxInbound }

  /** The guards in front of one callback. */
  predicate Reaches(s: State, env: Env, key: Key, payload: Bytes, tag: Tag) {
    match tag
    case Asks => DecodeRequest(payload).Some? && s.hasPolicy
    case Hands => Passes(s, env, key, payload) && s.hasHandler && Room(s)
    case Invokes => Passes(s, env, key, payload) && !s.hasHandler
    case _ => false
  }

  /** What an admitted request is answered with at once, if anything. */
  function Verdict(s: State, env: Env, key: Key, payload: Bytes): Option<CommandResult> {
    match DecodeRequest(payload)
    case None => Some(MALFORMED)
    case Some(inv) =>
      if !Passes(s, env, key, payload) then Some(env.policy(Context(key, inv)))
      else if !s.hasHandler then Some(env.registry(inv))
      else if !Room(s) then Some(EXHAUSTED)
      else if env.handler(Context(key, inv)) then None
      else Some(NOT_HANDED)
  }

  /** The callbacks on the way to the verdict. */
  function Callbacks(s: State, env: Env, key: Key, payload: Bytes): Log {
    match DecodeRequest(payload)
    case None => []
    case Some(inv) =>
      var context := Context(key, inv);
      var asked: Log := if s.hasPolicy then [PolicyAsked(context)] else [];
      if !Passes(s, env, key, payload) then asked + [Answered(context, env.policy(context))]
      else if !s.hasHandler then asked + [Invoked(context, env.registry(inv)), Answered(context, env.registry(inv))]
      else if Room(s) then asked + [Handed(context)]
      else asked
  }

  // ---------------------------------------------------------------- admission

  ghost predicate Settled(s: State, t: State, env: Env, key: Key, payload: Bytes, now: nat) {
    var u := Emit(s, Callbacks(s, env, key, payload));
    match Verdict(s, env, key, payload)
    case Some(r) => t == Respond(u, env, key, r, now).state
    case None =>
      (DecodeRequest(payload).Some?
       && t == u.(inbound := s.inbound + [Inbound(Context(key, DecodeRequest(payload).value), now)]))
  }

  lemma ExecuteIs(s: State, asked: Log, env: Env, context: Context, now: nat)
    ensures var t := Execute(Emit(s, asked), env, context, now).state;
            if !s.hasHandler then
              var r := env.registry(context.invocation);
              t == Respond(Emit(s, asked + [Invoked(context, r), Answered(context, r)]), env, context.key, r, now).state
            else if !Room(s) then t == Respond(Emit(s, asked), env, context.key, EXHAUSTED, now).state
            else if env.handler(context) then
              t == Emit(s, asked + [Handed(context)]).(inbound := s.inbound + [Inbound(context, now)])
            else t == Respond(Emit(s, asked + [Handed(context)]), env, context.key, NOT_HANDED, now).state
  {
    hide Respond;
    var r := env.registry(context.invocation);
    assert (s.log + asked) + [Handed(context)] == s.log + (asked + [Handed(context)]);
    assert (s.log + asked) + [Invoked(context, r), Answered(context, r)]
           == s.log + (asked + [Invoked(context, r), Answered(context, r)]);
  }

  lemma AdmitIs(s: State, env: Env, key: Key, payload: Bytes, now: nat)
    ensures Settled(s, Admit(s, env, key, payload, now).state, env, key, payload, now)
  {
    hide Respond, Execute, DecodeRequest;
    assert s.log + [] == s.log;
    match DecodeRequest(payload)
    case None =>
    case Some(inv) =>
      var context := Context(key, inv);
      var asked: Log := if s.hasPolicy then [PolicyAsked(context)] else [];
      ExecuteIs(s, asked, env, context, now);
      var refusal := env.policy(context);
      assert (s.log + asked) + [Answered(context, refusal)] == s.log + (asked + [Answered(context, refusal)]);
  }

  lemma CallbacksTally(s: State, env: Env, key: Key, payload: Bytes, tag: Tag)
    requires Executes(tag)
    ensures Tally(Callbacks(s, env, key, payload), tag, key) == if Reaches(s, env, key, payload, tag) then 1 else 0
    ensures Tally(Callbacks(s, env, key, payload), Admits, key) == 0
  {
    hide DecodeRequest, Tally;
    var es := Callbacks(s, env, key, payload);
    assert [] + es == es;
    NoTally(tag, key);
    NoTally(Admits, key);
    if |es| == 1 {
      TallyOne([], es[0], tag, key);
      TallyOne([], es[0], Admits, key);
    } else if |es| == 2 {
      assert es == [es[0], es[1]];
      TallyTwo([], es[0], es[1], tag, key);
      TallyTwo([], es[0], es[1], Admits, key);
    } else if |es| == 3 {
      assert es == [es[0]] + [es[1], es[2]];
      assert [] + [es[0]] == [es[0]];
      TallyOne([], es[0], tag, key);
      TallyOne([], es[0], Admits, key);
      TallyTwo([es[0]], es[1], es[2], tag, key);
      TallyTwo([es[0]], es[1], es[2], Admits, key);
    }
  }

  lemma NoTally(tag: Tag, k: Key)
    ensures Tally([], tag, k) == 0
  {
  }

  /** Admission of a request that is not recognised: callbacks counted, answer remembered or not. */
  lemma AdmitExact(s: State, env: Env, key: Key, payload: Bytes, now: nat, tag: Tag)
    requires TablesOk(s) && s.initialized && !Tracked(s, key) && Executes(tag)
    ensures var t, verdict := Admit(s, env, key, payload, now).state, Verdict(s, env, key, payload);
            && Tally(t.log, tag, key) == Tally(s.log, tag, key) + (if Reaches(s, env, key, payload, tag) then 1 else 0)
            && Tally(t.log, Admits, key) == Tally(s.log, Admits, key)
            && (Tracked(t, key) <==> verdict.None? || Answerable(s.config, verdict.value))
  {
    hide Respond, Admit, DecodeRequest, Tally, Verdict, Callbacks, Reaches, Answerable, TablesOk, Tracked;
    AdmitIs(s, env, key, payload, now);
    var es := Callbacks(s, env, key, payload);
    CallbacksTally(s, env, key, payload, tag);
    TallyAppend(s.log, es, tag, key);
    TallyAppend(s.log, es, Admits, key);
    EmitTables(s, es, key);
    var u, verdict := Emit(s, es), Verdict(s, env, key, payload);
    if verdict.Some? {
      RespondSettles(u, env, key, verdict.value, now, key);
      RespondTracks(u, env, key, verdict.value, now);
    } else {
      InboundHasLast(u, Context(key, DecodeRequest(payload).value), now);
    }
  }

  lemma InboundHasLast(s: State, context: Context, now: nat)
    ensures Tracked(s.(inbound := s.inbound + [Inbound(context, now)]), context.key)
  {
    var xs := s.inbound + [Inbound(context, now)];
    assert xs[|s.inbound|].context.key == context.key;
  }

  /** Answering makes the request recognised exactly when the answer has a wire form. */
  lemma RespondTracks(s: State, env: Env, key: Key, result: CommandResult, now: nat)
    requires TablesOk(s) && s.initialized && !Tracked(s, key)
    ensures Tracked(Respond(s, env, key, result, now).state, key) <==> Answerable(s.config, result)
  {
    hide SendPayload, ResponseBytes, Store, TablesOk, Tracked;
    if Answerable(s.config, result) {
      var u := Store(s, key, result, now);
      StoreKeeps(s, key, result, now, key);
      var m := Message(Response, key.id, ResponseBytes(result));
      var es := SendShape(u, env, key.peer, m);
      EmitTables(u, es, key);
    } else {
      EmitTables(s, [Forgot(key, Unanswerable)], key);
    }
  }

  // ---------------------------------------------------------------- the two directions

  /**
   * A complete request is admitted exactly when the receiver does not recognise it, and each
   * of policy, handler and registry sees it exactly when, in addition, the guards in front of
   * that callback let it through.
   */
  lemma ExecutedExactlyWhenUnknown(s: State, env: Env, key: Key, payload: Bytes, now: nat, tag: Tag)
    requires TablesOk(s) && s.initialized && Executes(tag)
    ensures var t := HandleRequest(s, env, key, payload, now).state;
            && Tally(t.log, Admits, key) == Tally(s.log, Admits, key) + (if Tracked(s, key) then 0 else 1)
            && Tally(t.log, tag, key)
               == Tally(s.log, tag, key) + (if !Tracked(s, key) && Reaches(s, env, key, payload, tag) then 1 else 0)
  {
    hide Admit, SendPayload, Tally, First, TablesOk, Tracked, Reaches;
    TrackedByFirst(s, key);
    var at := First(s.duplicates, CachedIs(key));
    if at < |s.duplicates| {
      SendQuiet(s, env, key.peer, Message(Response, key.id, s.duplicates[at].encoded), key);
    } else if !Tracked(s, key) {
      var u := Emit(s, [Admitted(key)]);
      EmitTables(s, [Admitted(key)], key);
      AdmittedOwes(s, key, key);
      AdmitExact(u, env, key, payload, now, tag);
      SameGuards(s, u, env, key, payload, tag);
    }
  }

  lemma SameGuards(s: State, u: State, env: Env, key: Key, payload: Bytes, tag: Tag)
    requires u == s.(log := u.log)
    ensures Reaches(u, env, key, payload, tag) == Reaches(s, env, key, payload, tag)
    ensures Verdict(u, env, key, payload) == Verdict(s, env, key, payload)
  {
    hide DecodeRequest;
  }

  /**
   * After an unrecognised request has been handled it is recognised exactly when it was
   * handed over, or its answer has a wire form within the message limit.
   */
  lemma RememberedExactlyWhenAnswerable(s: State, env: Env, key: Key, payload: Bytes, now: nat)
    requires TablesOk(s) && s.initialized && !Tracked(s, key)
    ensures var verdict := Verdict(s, env, key, payload);
            Tracked(HandleRequest(s, env, key, payload, now).state, key)
            <==> verdict.None? || Answerable(s.config, verdict.value)
  {
    hide Admit, Tally, First, TablesOk, Tracked, Answerable, Verdict;
    TrackedByFirst(s, key);
    var u := Emit(s, [Admitted(key)]);
    EmitTables(s, [Admitted(key)], key);
    AdmitExact(u, env, key, payload, now, Invokes);
    SameGuards(s, u, env, key, payload, Invokes);
  }

  // ---------------------------------------------------------------- again and again

  /** A frame that carries a whole request of `key`, whose registry result has no wire form. */
  ghost predicate Unanswered(c: Config, a: Action, key: Key) {
    && a.DoReceive? && a.peer == key.peer && ParseFrame(a.data).Some?
    && var (h, bytes) := ParseFrame(a.data).value;
       && h.count == 1 && h.index == 0 && h.length == h.total <= c.maxMessage && h.kind == Request && h.id == key.id
       && DecodeRequest(bytes).Some? && !Answerable(c, a.env.registry(DecodeRequest(bytes).value))
  }

  /** Synchronous execution with no policy, and the request is not recognised. */
  ghost predicate Open(s: State, key: Key) {
    TablesOk(s) && s.initialized && !s.hasPolicy && !s.hasHandler && !Tracked(s, key)
  }

  lemma UnansweredStep(s: State, a: Action, key: Key)
    requires Open(s, key) && Unanswered(s.config, a, key)
    ensures var t := Apply(s, a);
            Open(t, key) && t.config == s.config && Tally(t.log, Invokes, key) == Tally(s.log, Invokes, key) + 1
  {
    hide HandleRequest, Tally, TablesOk, Tracked, ParseFrame, Answerable, DecodeRequest, Reassemble;
    var (h, bytes) := ParseFrame(a.data).value;
    var u := Emit(s, [Assembled(key, Request, bytes)]);
    EmitTables(s, [Assembled(key, Request, bytes)], key);
    TallyOne(s.log, Assembled(key, Request, bytes), Invokes, key);
    ExecutedExactlyWhenUnknown(u, a.env, key, bytes, a.now, Invokes);
    RememberedExactlyWhenAnswerable(u, a.env, key, bytes, a.now);
    HandleRequestKeeps(u, a.env, key, bytes, a.now, key);
    assert Apply(s, a) == HandleRequest(u, a.env, key, bytes, a.now).state;
    ConfigKept(s, a);
    HandledFlags(u, a.env, key, bytes, a.now);
  }

  lemma HandledFlags(s: State, env: Env, key: Key, payload: Bytes, now: nat)
    requires TablesOk(s) && s.initialized && !Tracked(s, key)
    ensures var t := HandleRequest(s, env, key, payload, now).state;
            t.hasPolicy == s.hasPolicy && t.hasHandler == s.hasHandler
  {
    hide Admit, Respond, First, TablesOk, Tracked, Callbacks, Verdict, DecodeRequest;
    TrackedByFirst(s, key);
    var u := Emit(s, [Admitted(key)]);
    EmitTables(s, [Admitted(key)], key);
    AdmitIs(u, env, key, payload, now);
    var es, verdict := Callbacks(u, env, key, payload), Verdict(u, env, key, payload);
    EmitTables(u, es, key);
    if verdict.Some? { RespondSettles(Emit(u, es), env, key, verdict.value, now, key); }
  }

  /**
   * Re-execution. A request whose answer has no wire form is executed every time its frame
   * arrives: after any number of such deliveries the registry has run it that many times.
   */
  lemma {:induction false} ExecutedAtEveryDelivery(s: State, actions: seq<Action>, key: Key)
    requires Open(s, key) && forall i :: 0 <= i < |actions| ==> Unanswered(s.config, actions[i], key)
    ensures var t := Run(s, actions);
            Open(t, key) && t.config == s.config && Tally(t.log, Invokes, key) == Tally(s.log, Invokes, key) + |actions|
  {
    hide Apply, Tally, TablesOk, Tracked, Unanswered;
    if actions != [] {
      var n := |actions| - 1;
      ExecutedAtEveryDelivery(s, actions[..n], key);
      UnansweredStep(Run(s, actions[..n]), actions[n], key);
    }
  }
}
