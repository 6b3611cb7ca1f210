/**
 * Progress: when the frames get through, the call is answered. The fragments of a request
 * and of its answer may arrive in any order, repeated and among other traffic; the caller
 * then completes, once, with what the callee answered.
 */
module CommandRoundTrip {
  import opened Bytes
  import opened Chunks
  import opened CommandCodec
  import opened CommandFragments
  import opened CommandModel
  import opened CommandRuns
  import opened CommandSystem
  import opened Reassembly
  import opened Reexecution
  import opened Rounds
  import opened Sending
  import opened Tables

  // ---------------------------------------------------------------- sending everything

  lemma {:induction false} AllPass(accepts: nat -> bool, base: nat, n: nat)
    requires forall i :: accepts(i)
    ensures Passed(accepts, base, n) == n
  {
    if n > 0 { AllPass(accepts, base, n - 1); }
  }

  /** A radio that refuses nothing gets the whole message on the air. */
  lemma SendsAll(s: State, env: Env, to: Addr, m: Message)
    requires FragmentCount(|m.payload|, s.config.maxPayload) > 0 && forall i :: env.accepts(i)
    ensures var t := SendPayload(s, env, to, m).state;
            FullySent(t.log, to, m, s.config.maxPayload) && s.log <= t.log
  {
    hide Frame;
    var limit := s.config.maxPayload;
    var n := FragmentCount(|m.payload|, limit);
    AllPass(env.accepts, |s.log|, n);
    var sends := Sends(limit, to, m, n);
    var t := SendPayload(s, env, to, m).state;
    forall i | 0 <= i < n ensures Transmitted(to, Frame(limit, m, i), m, i) in t.log {
      assert t.log[|s.log| + i] == sends[i];
    }
  }

  /** When `Invoke` succeeds, every fragment of the request has left. */
  lemma InvokedIsSent(s: State, env: Env, peer: Addr, inv: Invocation, now: nat)
    requires Call(s, env, peer, inv, now).ok
    ensures var t, id := Call(s, env, peer, inv, now).state, DrawId(s.nextId);
            FullySent(t.log, peer, Message(Request, id, RequestBytes(inv)), s.config.maxPayload)
  {
    hide Frame, RequestBytes, Encodable, FragmentCount, NextId;
    var limit, m := s.config.maxPayload, Message(Request, DrawId(s.nextId), RequestBytes(inv));
    var t := Call(s, env, peer, inv, now).state;
    var n := FragmentCount(|m.payload|, limit);
    var sends := Sends(limit, peer, m, n);
    forall i | 0 <= i < n ensures Transmitted(peer, Frame(limit, m, i), m, i) in t.log {
      assert sends[i] in t.log;
    }
  }

  // ---------------------------------------------------------------- the last fragment

  /** The call that brings the last missing fragment hands the whole message on. */
  lemma LastFragmentDispatches(s: State, a: Action, peer: Addr, m: Message, seen: set<nat>) returns (slots: seq<Slot>)
    requires TablesOk(s) && s.initialized && UsableLimit(s.config.maxPayload)
    requires |m.payload| <= s.config.maxMessage && Count(m, s.config.maxPayload) > 0
    requires Fair(s, a, peer, m) && Tracks(s.slots, Key(peer, m.id), m, s.config.maxPayload, seen)
    requires Count(m, s.config.maxPayload) == 1 ==> seen == {}
    requires Finishes(seen, PieceIn(peer, m)(a), Count(m, s.config.maxPayload))
    ensures TablesOk(s.(slots := slots))
    ensures Apply(s, a) == Dispatch(s.(slots := slots), a.env, Key(peer, m.id), m.kind, m.payload, a.now).state
  {
    hide Dispatch, Reassemble, Tracks, ParseFrame, Frame, FragmentCount, Chunk, AllIndices;
    var k, limit := Key(peer, m.id), s.config.maxPayload;
    var (h, bytes) := ParseFrame(a.data).value;
    OwnFragment(s, a, peer, m);
    if Count(m, limit) == 1 {
      slots := s.slots;
      assert s.(slots := slots) == s;
    } else {
      TracksEmpty(s.slots, k, m, limit, seen);
      ReassembleOwn(s.slots, s.config, k, m, seen, h.index, a.now);
      ReassembleKeeps(s.slots, s.config, k, h, bytes, a.now);
      slots := Reassemble(s.slots, s.config, k, h, bytes, a.now).slots;
    }
  }

  lemma RunLast(s: State, actions: seq<Action>, a: Action)
    requires TablesOk(s)
    ensures Run(s, actions + [a]) == Apply(Run(s, actions), a)
  {
    hide Apply, TablesOk;
    assert (actions + [a])[..|actions|] == actions;
  }

  lemma {:induction false} RunConcat(s: State, a: seq<Action>, b: seq<Action>)
    requires TablesOk(s)
    ensures Run(Run(s, a), b) == Run(s, a + b)
  {
    hide Apply, TablesOk;
    if b == [] {
      assert a + b == a;
    } else {
      var n := |b| - 1;
      RunConcat(s, a, b[..n]);
      RunLast(s, a + b[..n], b[n]);
      assert a + b == (a + b[..n]) + [b[n]];
    }
  }

  /** The fragments of `m` reach the endpoint during `actions`, the last missing one with `last`. */
  ghost predicate Delivers(s: State, actions: seq<Action>, last: Action, peer: Addr, m: Message)
    requires TablesOk(s)
  {
    var n := Count(m, s.config.maxPayload);
    && s.initialized && UsableLimit(s.config.maxPayload) && |m.payload| <= s.config.maxMessage && n > 0
    && NoSlot(s.slots, Key(peer, m.id), m.kind) && FairRun(s, actions + [last], peer, m)
    && Finishes(SeenAfter(actions, PieceIn(peer, m), n), PieceIn(peer, m)(last), n)
  }

  /** The simplest delivery: a message of one fragment, whose frame arrives. */
  lemma OneFrameDelivers(s: State, env: Env, peer: Addr, m: Message, now: nat)
    requires TablesOk(s) && s.initialized && UsableLimit(s.config.maxPayload) && |m.payload| <= s.config.maxMessage
    requires Count(m, s.config.maxPayload) == 1 && NoSlot(s.slots, Key(peer, m.id), m.kind)
    ensures Delivers(s, [], DoReceive(env, peer, Frame(s.config.maxPayload, m, 0), now), peer, m)
  {
    hide ParseFrame, Frame, TablesOk, Apply, FragmentCount;
    var last := DoReceive(env, peer, Frame(s.config.maxPayload, m, 0), now);
    FrameParses(s.config.maxPayload, m, 0);
    assert [] + [last] == [last] && [last][..0] == [];
    SingleIsAll();
  }

  /** Whatever order they came in, the message is then handed on as it was sent. */
  lemma DeliveredIsDispatched(s: State, actions: seq<Action>, last: Action, peer: Addr, m: Message)
    returns (slots: seq<Slot>)
    requires TablesOk(s) && Delivers(s, actions, last, peer, m)
    ensures var u := Run(s, actions);
            && u.initialized && u.config == s.config && last.DoReceive? && TablesOk(u.(slots := slots))
            && Run(s, actions + [last])
               == Dispatch(u.(slots := slots), last.env, Key(peer, m.id), m.kind, m.payload, last.now).state
  {
    hide Apply, Dispatch, Fair, Tracks, TablesOk, FragmentCount, Concerns, Finishes, SeenAfter, Copies, NoSlot;
    var n := Count(m, s.config.maxPayload);
    forall i | 0 <= i < |actions| ensures Fair(Run(s, actions[..i]), actions[i], peer, m) {
      assert (actions + [last])[..i] == actions[..i] && (actions + [last])[i] == actions[i];
    }
    AnyOrderReassembly(s, actions, peer, m);
    var u := Run(s, actions);
    assert Fair(u, last, peer, m) by {
      assert (actions + [last])[..|actions|] == actions && (actions + [last])[|actions|] == last;
    }
    RunLast(s, actions, last);
    FinishesReceives(SeenAfter(actions, PieceIn(peer, m), n), last, peer, m, n);
    slots := LastFragmentDispatches(u, last, peer, m, SeenAfter(actions, PieceIn(peer, m), n));
  }

  lemma FinishesReceives(seen: set<nat>, a: Action, peer: Addr, m: Message, n: nat)
    requires Finishes(seen, PieceIn(peer, m)(a), n)
    ensures a.DoReceive?
  {
  }

  // ---------------------------------------------------------------- the callee

  /** An unrecognised request with a verdict that has a wire form is answered with it, in full. */
  lemma RequestIsAnswered(s: State, env: Env, key: Key, payload: Bytes, now: nat, r: CommandResult)
    requires TablesOk(s) && s.initialized && !Tracked(s, key) && (forall i :: env.accepts(i))
    requires Verdict(s, env, key, payload) == Some(r) && Answerable(s.config, r)
    requires FragmentCount(|ResponseBytes(r)|, s.config.maxPayload) > 0
    ensures var t := HandleRequest(s, env, key, payload, now).state;
            && Stored(key, r) in t.log
            && FullySent(t.log, key.peer, Message(Response, key.id, ResponseBytes(r)), s.config.maxPayload)
  {
    hide Admit, SendPayload, ResponseBytes, First, TablesOk, Tracked, Verdict, Callbacks, FragmentCount, Frame,
         Answerable;
    TrackedByFirst(s, key);
    var u := Emit(s, [Admitted(key)]);
    AdmitIs(u, env, key, payload, now);
    SameGuards(s, u, env, key, payload, Invokes);
    var v := Store(Emit(u, Callbacks(u, env, key, payload)), key, r, now);
    var m := Message(Response, key.id, ResponseBytes(r));
    SendsAll(v, env, key.peer, m);
    assert v.log[|v.log| - 1] == Stored(key, r);
    StoredStays(v.log, SendPayload(v, env, key.peer, m).state.log, Stored(key, r));
  }

  lemma StoredStays(a: Log, b: Log, e: Event)
    requires a <= b && e in a
    ensures e in b
  {
    var i :| 0 <= i < |a| && a[i] == e;
    assert b[i] == e;
  }

  /** A recognised request that has been answered gets the cached answer again, in full. */
  lemma RequestIsAnsweredAgain(s: State, env: Env, key: Key, payload: Bytes, now: nat, e: Cached)
    requires TablesOk(s) && e in s.duplicates && e.key == key && (forall i :: env.accepts(i))
    requires FragmentCount(|e.encoded|, s.config.maxPayload) > 0
    ensures FullySent(HandleRequest(s, env, key, payload, now).state.log, key.peer,
                      Message(Response, key.id, e.encoded), s.config.maxPayload)
  {
    hide SendPayload, FragmentCount, Frame, Admit;
    var at := First(s.duplicates, CachedIs(key));
    var j :| 0 <= j < |s.duplicates| && s.duplicates[j] == e;
    assert CachedIs(key)(s.duplicates[j]);
    assert at == j;
    SendsAll(s, env, key.peer, Message(Response, key.id, e.encoded));
  }

  /** The registry's verdict on a request as `Invoke` sends it. */
  lemma SynchronousVerdict(s: State, env: Env, key: Key, inv: Invocation)
    requires !s.hasPolicy && !s.hasHandler && Encodable(inv) && CountsFit(inv)
    ensures Verdict(s, env, key, RequestBytes(inv)) == Some(env.registry(Normalise(inv)))
  {
    hide RequestBytes, DecodeRequest, Normalise, Encodable;
    RequestRoundTrip(inv);
  }

  /** Delivery of a whole request, fragments in any order, puts the whole answer on the air. */
  lemma DeliveredRequestIsAnswered(s: State, actions: seq<Action>, last: Action, peer: Addr, m: Message,
                                   r: CommandResult)
    requires TablesOk(s) && Delivers(s, actions, last, peer, m) && m.kind == Request && last.DoReceive?
    requires !Tracked(Run(s, actions), Key(peer, m.id)) && (forall i :: last.env.accepts(i))
    requires Verdict(Run(s, actions), last.env, Key(peer, m.id), m.payload) == Some(r) && Answerable(s.config, r)
    requires FragmentCount(|ResponseBytes(r)|, s.config.maxPayload) > 0
    ensures var t := Run(s, actions + [last]);
            && Stored(Key(peer, m.id), r) in t.log
            && FullySent(t.log, peer, Message(Response, m.id, ResponseBytes(r)), s.config.maxPayload)
  {
    hide Delivers, HandleRequest, TablesOk, Tracked, Verdict, Answerable, ResponseBytes, FragmentCount, Frame, Run;
    var key := Key(peer, m.id);
    var slots := DeliveredIsDispatched(s, actions, last, peer, m);
    var u := Run(s, actions).(slots := slots);
    var v := Emit(u, [Assembled(key, Request, m.payload)]);
    EmitTables(u, [Assembled(key, Request, m.payload)], key);
    OtherSlots(Run(s, actions), slots, last.env, key, m.payload);
    SameGuards(u, v, last.env, key, m.payload, Invokes);
    RequestIsAnswered(v, last.env, key, m.payload, last.now, r);
  }

  lemma OtherSlots(s: State, slots: seq<Slot>, env: Env, key: Key, payload: Bytes)
    ensures Verdict(s.(slots := slots), env, key, payload) == Verdict(s, env, key, payload)
    ensures Tracked(s.(slots := slots), key) <==> Tracked(s, key)
  {
    hide DecodeRequest;
  }

  // ---------------------------------------------------------------- the caller

  lemma {:induction false} WaitingFound(xs: seq<Pending>, k: Key)
    requires Waiting(xs, k) > 0
    ensures First(xs, PendingIs(k)) < |xs|
  {
    var n := |xs| - 1;
    if xs[n].key == k {
      assert PendingIs(k)(xs[n]);
    } else {
      WaitingFound(xs[..n], k);
      var i := First(xs[..n], PendingIs(k));
      assert PendingIs(k)(xs[i]);
    }
  }

  /** Delivery of a whole response, fragments in any order, completes the request that waits for it. */
  lemma DeliveredResponseCompletes(s: State, actions: seq<Action>, last: Action, peer: Addr, id: U64, r: CommandResult)
    requires FitsText(r.message)
    requires TablesOk(s) && Delivers(s, actions, last, peer, Message(Response, id, ResponseBytes(r)))
    requires Waiting(Run(s, actions).pending, Key(peer, id)) > 0
    ensures Completed(Key(peer, id), r, ByResponse) in Run(s, actions + [last]).log
  {
    hide Delivers, TablesOk, ResponseBytes, Run, Waiting, DecodeResponse, First;
    var key, m := Key(peer, id), Message(Response, id, ResponseBytes(r));
    var slots := DeliveredIsDispatched(s, actions, last, peer, m);
    var u := Run(s, actions).(slots := slots);
    ResponseReadsBack(r);
    WaitingFound(u.pending, key);
    var t := HandleResponse(Emit(u, [Assembled(key, Response, m.payload)]), key, m.payload).state;
    assert t.log[|t.log| - 1] == Completed(key, r, ByResponse);
  }

  // ---------------------------------------------------------------- there and back

  /**
   * Round trip. A, in any state of its lifetime, invokes a command at B and all of its
   * frames leave. They reach B in any order and any number of times among other calls, B
   * does not recognise the request and comes to a verdict with a wire form, and the frames of
   * that answer reach A in the same manner while the request is pending. Then the whole
   * answer left B, and A completes the request exactly once, with that answer.
   */
  lemma CallCompletesWithAnswer(c: Config, before: seq<Action>, invoke: Action, there: seq<Action>, reached: Action,
                                back: seq<Action>, returned: Action, a: Addr, sb: State, r: CommandResult)
    requires invoke.DoInvoke? && reached.DoReceive?
    requires Call(Lifetime(c, before), invoke.env, invoke.peer, invoke.invocation, invoke.now).ok
    requires var key := Key(a, DrawId(Lifetime(c, before).nextId));
             var request := Message(Request, key.id, RequestBytes(invoke.invocation));
             && TablesOk(sb) && Delivers(sb, there, reached, a, request)
             && !Tracked(Run(sb, there), key) && (forall i :: reached.env.accepts(i))
             && Verdict(Run(sb, there), reached.env, key, request.payload) == Some(r) && Answerable(sb.config, r)
             && FragmentCount(|ResponseBytes(r)|, sb.config.maxPayload) > 0
    requires var sa, key := Lifetime(c, before + [invoke]), Key(invoke.peer, DrawId(Lifetime(c, before).nextId));
             && Delivers(sa, back, returned, invoke.peer, Message(Response, key.id, ResponseBytes(r)))
             && Waiting(Run(sa, back).pending, key) > 0
    requires Lifetime(c, before + [invoke] + back + [returned]).drawn <= MAXIMUM_IDS
    ensures var id := DrawId(Lifetime(c, before).nextId);
            var answer := Message(Response, id, ResponseBytes(r));
            var t := Lifetime(c, before + [invoke] + back + [returned]);
            && FullySent(Lifetime(c, before + [invoke]).log, invoke.peer,
                         Message(Request, id, RequestBytes(invoke.invocation)), Lifetime(c, before).config.maxPayload)
            && FullySent(Run(sb, there + [reached]).log, a, answer, sb.config.maxPayload)
            && Completed(Key(invoke.peer, id), r, ByResponse) in t.log
            && Tally(t.log, Ends, Key(invoke.peer, id)) == 1 && Waiting(t.pending, Key(invoke.peer, id)) == 0
  {
    hide Delivers, TablesOk, Tracked, Verdict, ResponseBytes, RequestBytes, Run, Waiting, Tally, FragmentCount,
         Frame, Call;
    var id := DrawId(Lifetime(c, before).nextId);
    var key := Key(invoke.peer, id);
    DeliveredRequestIsAnswered(sb, there, reached, a, Message(Request, id, RequestBytes(invoke.invocation)), r);
    FreshOk(c);
    RunLast(Fresh(c), before, invoke);
    InvokedIsSent(Lifetime(c, before), invoke.env, invoke.peer, invoke.invocation, invoke.now);
    RunConcat(Fresh(c), before + [invoke], back + [returned]);
    assert before + [invoke] + (back + [returned]) == before + [invoke] + back + [returned];
    DeliveredResponseCompletes(Lifetime(c, before + [invoke]), back, returned, invoke.peer, id, r);
    var t := Lifetime(c, before + [invoke] + back + [returned]);
    CompletedOnce(c, before + [invoke] + back + [returned], key, r);
  }

  lemma CompletedOnce(c: Config, actions: seq<Action>, k: Key, r: CommandResult)
    requires Completed(k, r, ByResponse) in Lifetime(c, actions).log && Lifetime(c, actions).drawn <= MAXIMUM_IDS
    ensures var t := Lifetime(c, actions); Tally(t.log, Ends, k) == 1 && Waiting(t.pending, k) == 0
  {
    hide Run, Tally, Waiting;
    var t := Lifetime(c, actions);
    ExactlyOnceCompletion(c, actions, k);
    TallyPositive(t.log, Completed(k, r, ByResponse), Ends, k);
  }
}
