/**
 * What every call of the endpoint keeps, whatever the frames, callbacks and clock do:
 * table shapes, conservation of requests and answers, and so exactly-once completion and
 * at-most-once execution over whole runs.
 */
module CommandRuns {
  import opened Bytes
  import opened Chunks
  import opened CommandCodec
  import opened CommandFragments
  import opened CommandModel
  import opened Sending
  import opened Tables

  // ---------------------------------------------------------------- table shapes

  ghost predicate InboundHas(xs: seq<Inbound>, k: Key) { exists i :: 0 <= i < |xs| && xs[i].context.key == k }
  ghost predicate CachedHas(xs: seq<Cached>, k: Key) { exists i :: 0 <= i < |xs| && xs[i].key == k }

  /** The receiver recognises `k`: it is executing it or remembers its answer. */
  ghost predicate Tracked(s: State, k: Key) { InboundHas(s.inbound, k) || CachedHas(s.duplicates, k) }

  ghost predicate DistinctInbound(xs: seq<Inbound>) {
    forall i, j :: 0 <= i < j < |xs| ==> xs[i].context.key != xs[j].context.key
  }
  ghost predicate DistinctCached(xs: seq<Cached>) {
    forall i, j :: 0 <= i < j < |xs| ==> xs[i].key != xs[j].key
  }
  ghost predicate SlotsOk(xs: seq<Slot>) {
    && (forall i, j :: 0 <= i < j < |xs| ==> xs[i].key != xs[j].key || xs[i].kind != xs[j].kind)
    && (forall i :: 0 <= i < |xs| ==> xs[i].received <= AllIndices(xs[i].count))
  }

  ghost predicate TablesOk(s: State) {
    && (!s.initialized ==> s.pending == [] && s.inbound == [] && s.slots == [] && s.duplicates == [])
    && (s.initialized ==> ValidConfig(s.config))
    && |s.pending| <= s.config.maxOutstanding && |s.inbound| <= s.config.maxInbound
    && |s.slots| <= s.config.maxReassemblies && |s.duplicates| <= s.config.maxDuplicates
    && DistinctInbound(s.inbound) && DistinctCached(s.duplicates)
    && (forall k :: InboundHas(s.inbound, k) ==> !CachedHas(s.duplicates, k))
    && SlotsOk(s.slots)
  }

  // ---------------------------------------------------------------- counting events

  datatype Tag =
    | Starts | Ends | SendFails | RequestSends | Assembles | Admits
    | Forgets | Asks | Hands | Invokes | Replies | Stores

  predicate Counts(e: Event, tag: Tag, k: Key) {
    match tag
    case Starts => e.Submitted? && e.key == k
    case Ends => e.Completed? && e.key == k
    case SendFails => e.Completed? && e.key == k && e.cause.BySendFailure?
    case RequestSends => e.Transmitted? && e.message.kind == Request && e.message.id == k.id && e.to == k.peer
    case Assembles => e.Assembled? && e.key == k
    case Admits => e.Admitted? && e.key == k
    case Forgets => e.Forgot? && e.key == k
    case Asks => e.PolicyAsked? && e.context.key == k
    case Hands => e.Handed? && e.context.key == k
    case Invokes => e.Invoked? && e.context.key == k
    case Replies => e.Stored? && e.key == k
    case Stores => e.Stored?
  }

  function Tally(log: Log, tag: Tag, k: Key): nat {
    if log == [] then 0
    else Tally(log[..|log| - 1], tag, k) + if Counts(log[|log| - 1], tag, k) then 1 else 0
  }

  lemma {:induction false} TallyAppend(a: Log, b: Log, tag: Tag, k: Key)
    ensures Tally(a + b, tag, k) == Tally(a, tag, k) + Tally(b, tag, k)
  {
    if b == [] {
      assert a + b == a;
    } else {
      TallyAppend(a, b[..|b| - 1], tag, k);
      assert (a + b)[..|a + b| - 1] == a + b[..|b| - 1];
    }
  }

  lemma {:induction false} TallyNone(es: Log, tag: Tag, k: Key)
    requires forall i :: 0 <= i < |es| ==> !Counts(es[i], tag, k)
    ensures Tally(es, tag, k) == 0
  {
    if es != [] { TallyNone(es[..|es| - 1], tag, k); }
  }

  /** One more event. */
  lemma TallyOne(log: Log, e: Event, tag: Tag, k: Key)
    ensures Tally(log + [e], tag, k) == Tally(log, tag, k) + if Counts(e, tag, k) then 1 else 0
  {
    assert (log + [e])[..|log|] == log;
  }

  lemma TallyTwo(log: Log, d: Event, e: Event, tag: Tag, k: Key)
    ensures Tally(log + [d, e], tag, k)
         == Tally(log, tag, k) + (if Counts(d, tag, k) then 1 else 0) + if Counts(e, tag, k) then 1 else 0
  {
    assert log + [d, e] == (log + [d]) + [e];
    TallyOne(log + [d], e, tag, k);
    TallyOne(log, d, tag, k);
  }

  function Waiting(xs: seq<Pending>, k: Key): nat {
    if xs == [] then 0 else Waiting(xs[..|xs| - 1], k) + if xs[|xs| - 1].key == k then 1 else 0
  }

  lemma {:induction false} WaitingAppend(a: seq<Pending>, b: seq<Pending>, k: Key)
    ensures Waiting(a + b, k) == Waiting(a, k) + Waiting(b, k)
  {
    if b == [] {
      assert a + b == a;
    } else {
      WaitingAppend(a, b[..|b| - 1], k);
      assert (a + b)[..|a + b| - 1] == a + b[..|b| - 1];
    }
  }

  lemma WaitingOne(a: seq<Pending>, p: Pending, k: Key)
    ensures Waiting(a + [p], k) == Waiting(a, k) + if p.key == k then 1 else 0
  {
    assert (a + [p])[..|a|] == a;
  }

  lemma WaitingRemove(xs: seq<Pending>, i: nat, k: Key)
    requires i < |xs|
    ensures Waiting(xs, k) == Waiting(Remove(xs, i), k) + if xs[i].key == k then 1 else 0
  {
    WaitingAppend(xs[..i], xs[i + 1..], k);
    WaitingAppend(xs[..i] + [xs[i]], xs[i + 1..], k);
    WaitingOne(xs[..i], xs[i], k);
    assert xs == (xs[..i] + [xs[i]]) + xs[i + 1..];
  }

  lemma {:induction false} WaitingFilter(xs: seq<Pending>, p: Pending -> bool, k: Key)
    ensures Waiting(xs, k) == Waiting(Filter(xs, p), k) + Waiting(Filter(xs, Not(p)), k)
  {
    if xs != [] {
      var front, last := xs[..|xs| - 1], xs[|xs| - 1];
      WaitingFilter(front, p, k);
      WaitingOne(Filter(front, p), last, k);
      WaitingOne(Filter(front, Not(p)), last, k);
    }
  }

  lemma {:induction false} CompletionsTally(xs: seq<Pending>, result: CommandResult, cause: Cause, tag: Tag, k: Key)
    requires !cause.BySendFailure?
    ensures Tally(Completions(xs, result, cause), tag, k) == if tag == Ends then Waiting(xs, k) else 0
  {
    if xs != [] {
      var n := |xs| - 1;
      CompletionsTally(xs[..n], result, cause, tag, k);
      assert Completions(xs, result, cause)[..n] == Completions(xs[..n], result, cause);
    }
  }

  /** How often `k` occurs in a list of keys. */
  function Occurs(ks: seq<Key>, k: Key): nat {
    if ks == [] then 0 else Occurs(ks[..|ks| - 1], k) + if ks[|ks| - 1] == k then 1 else 0
  }

  lemma {:induction false} LossesTally(ks: seq<Key>, loss: Loss, tag: Tag, k: Key)
    ensures Tally(Losses(ks, loss), tag, k) == if tag == Forgets then Occurs(ks, k) else 0
  {
    if ks != [] {
      var n := |ks| - 1;
      LossesTally(ks[..n], loss, tag, k);
      assert Losses(ks, loss)[..n] == Losses(ks[..n], loss);
    }
  }

  lemma {:induction false} OccursOnce(ks: seq<Key>, k: Key)
    requires forall i, j :: 0 <= i < j < |ks| ==> ks[i] != ks[j]
    ensures Occurs(ks, k) == if k in ks then 1 else 0
  {
    if ks != [] {
      var n := |ks| - 1;
      OccursOnce(ks[..n], k);
      assert ks == ks[..n] + [ks[n]];
    }
  }

  // ---------------------------------------------------------------- what is conserved

  /** Admissions not yet accounted for by a tracked entry or a loss. */
  ghost function Debt(s: State, k: Key): int {
    Tally(s.log, Admits, k) - Tally(s.log, Forgets, k) - if Tracked(s, k) then 1 else 0
  }

  /** Requests started but neither ended nor pending. */
  ghost function Missing(s: State, k: Key): int {
    Tally(s.log, Starts, k) - Tally(s.log, Ends, k) - Waiting(s.pending, k)
  }

  /** Admissions that have neither been answered nor are being executed. */
  ghost function Slack(s: State, k: Key): int {
    Tally(s.log, Admits, k) - Tally(s.log, Replies, k) - if InboundHas(s.inbound, k) then 1 else 0
  }

  ghost predicate Balanced(s: State, k: Key) { Debt(s, k) == 0 && Missing(s, k) == 0 }

  /** The callbacks that only an admitted request may reach. */
  predicate Executes(tag: Tag) { tag.Asks? || tag.Hands? || tag.Invokes? }

  /** From `s` to `t` the log only grew, and callbacks for `k` were paid for by admissions. */
  ghost predicate Advances(s: State, t: State, k: Key) {
    && s.log <= t.log
    && (forall tag :: Executes(tag) ==>
         Tally(t.log, tag, k) - Tally(s.log, tag, k) <= Tally(t.log, Admits, k) - Tally(s.log, Admits, k))
  }

  // ---------------------------------------------------------------- sending and storing

  lemma SendShape(s: State, env: Env, to: Addr, m: Message) returns (es: Log)
    ensures SendPayload(s, env, to, m).state == Emit(s, es)
    ensures forall i :: 0 <= i < |es| ==> es[i].Refused? || (es[i].Transmitted? && es[i].message == m && es[i].to == to)
  {
    var n := FragmentCount(|m.payload|, s.config.maxPayload);
    var k := Passed(env.accepts, |s.log|, n);
    es := Sends(s.config.maxPayload, to, m, k) + if k < n then [Refused(to, m, k)] else [];
  }

  /** Sending a payload touches nothing but the log, and there only what it should. */
  lemma SendQuiet(s: State, env: Env, to: Addr, m: Message, k: Key)
    ensures var t := SendPayload(s, env, to, m).state;
            && t == s.(log := t.log) && s.log <= t.log
            && forall tag :: m.kind == Response || tag != RequestSends ==> Tally(t.log, tag, k) == Tally(s.log, tag, k)
  {
    var es := SendShape(s, env, to, m);
    forall tag | m.kind == Response || tag != RequestSends ensures Tally(s.log + es, tag, k) == Tally(s.log, tag, k) {
      TallyNone(es, tag, k);
      TallyAppend(s.log, es, tag, k);
    }
  }

  /** Storing one more answer pushes the answer to `k` out. */
  ghost predicate Evicts(s: State, k: Key) {
    s.duplicates != [] && |s.duplicates| >= s.config.maxDuplicates && s.duplicates[0].key == k
  }

  lemma StoreTally(s: State, key: Key, result: CommandResult, now: nat, tag: Tag, k: Key)
    requires s.config.maxDuplicates > 0
    ensures Tally(Store(s, key, result, now).log, tag, k)
         == Tally(s.log, tag, k) + (if tag == Stores || (tag == Replies && key == k) then 1 else 0)
            + if tag == Forgets && Evicts(s, k) then 1 else 0
  {
    hide Tally, ResponseBytes;
    var stored := Event.Stored(key, result);
    if |s.duplicates| >= s.config.maxDuplicates {
      var lost := Forgot(s.duplicates[0].key, Evicted);
      assert Store(s, key, result, now).log == s.log + [lost, stored];
      TallyTwo(s.log, lost, stored, tag, k);
    } else {
      assert Store(s, key, result, now).log == s.log + [stored];
      TallyOne(s.log, stored, tag, k);
    }
  }

  lemma StoreKeeps(s: State, key: Key, result: CommandResult, now: nat, k: Key)
    requires TablesOk(s) && s.initialized && !Tracked(s, key)
    ensures TablesOk(Store(s, key, result, now))
    ensures Tracked(Store(s, key, result, now), k)
       <==> k == key || (Tracked(s, k) && !Evicts(s, k))
  {
    var t := Store(s, key, result, now);
    var d, e := s.duplicates, t.duplicates;
    var cut := if |d| >= s.config.maxDuplicates then 1 else 0;
    assert |e| == |d| - cut + 1 && e[|e| - 1].key == key;
    assert forall i :: 0 <= i < |e| - 1 ==> e[i] == d[i + cut];
    forall i | 0 <= i < |e| - 1 ensures e[i].key != key && CachedHas(d, e[i].key) {
      assert e[i].key == d[i + cut].key;
    }
    forall x | InboundHas(t.inbound, x) ensures !CachedHas(e, x) {
    }
    if CachedHas(d, k) {
      var i :| 0 <= i < |d| && d[i].key == k;
      if i >= cut { assert e[i - cut].key == k; }
    }
    assert e[|e| - 1].key == key;
  }

  predicate Remembers(tag: Tag) { tag.Forgets? || tag.Replies? || tag.Stores? }

  /** Answering settles one admission: the answer is remembered, or known to be lost. */
  lemma RespondSettles(s: State, env: Env, key: Key, result: CommandResult, now: nat, k: Key)
    requires TablesOk(s) && s.initialized && !Tracked(s, key)
    ensures var t := Respond(s, env, key, result, now).state;
            && TablesOk(t) && t == s.(log := t.log, duplicates := t.duplicates)
            && Debt(t, k) == Debt(s, k) - (if k == key then 1 else 0)
            && Missing(t, k) == Missing(s, k) && s.log <= t.log
            && Slack(t, k) >= Slack(s, k) - (if k == key then 1 else 0)
            && (Tracked(t, k) ==> Tracked(s, k) || k == key)
            && forall tag :: !Remembers(tag) ==> Tally(t.log, tag, k) == Tally(s.log, tag, k)
  {
    hide Tally, SendPayload, ResponseBytes, Store, TablesOk, Debt, Missing, Slack, Tracked, Waiting;
    if Answerable(s.config, result) {
      var u := Store(s, key, result, now);
      StoreSettles(s, key, result, now, k);
      SendSettles(u, env, key.peer, Message(Response, key.id, ResponseBytes(result)), k);
    } else {
      ForgetSettles(s, key, k);
    }
  }

  /** What answering does to the accounts of `k`, and to nothing else. */
  ghost predicate Answers(s: State, t: State, key: Key, k: Key) {
    && TablesOk(t) && t == s.(log := t.log, duplicates := t.duplicates)
    && Debt(t, k) == Debt(s, k) - (if k == key then 1 else 0)
    && Missing(t, k) == Missing(s, k) && s.log <= t.log
    && Slack(t, k) >= Slack(s, k) - (if k == key then 1 else 0)
    && (Tracked(t, k) ==> Tracked(s, k) || k == key)
    && forall tag :: !Remembers(tag) ==> Tally(t.log, tag, k) == Tally(s.log, tag, k)
  }

  lemma ForgetSettles(s: State, key: Key, k: Key)
    requires TablesOk(s) && !Tracked(s, key)
    ensures Answers(s, Emit(s, [Forgot(key, Unanswerable)]), key, k)
  {
    hide Tally, Waiting;
    forall tag ensures Tally(s.log + [Forgot(key, Unanswerable)], tag, k)
                    == Tally(s.log, tag, k) + if tag == Forgets && k == key then 1 else 0 {
      TallyOne(s.log, Forgot(key, Unanswerable), tag, k);
    }
    EmitTables(s, [Forgot(key, Unanswerable)], k);
  }

  lemma StoreSettles(s: State, key: Key, result: CommandResult, now: nat, k: Key)
    requires TablesOk(s) && s.initialized && !Tracked(s, key)
    ensures Answers(s, Store(s, key, result, now), key, k)
  {
    hide Tally, Store, Tracked, ResponseBytes, Evicts, Waiting;
    var u := Store(s, key, result, now);
    StoreFrame(s, key, result, now);
    StoreKeeps(s, key, result, now, k);
    forall tag ensures Tally(u.log, tag, k)
                    == Tally(s.log, tag, k) + (if tag == Stores || (tag == Replies && key == k) then 1 else 0)
                                             + if tag == Forgets && Evicts(s, k) then 1 else 0 {
      StoreTally(s, key, result, now, tag, k);
    }
    EvictedWasTracked(s, key, k);
  }

  lemma StoreFrame(s: State, key: Key, result: CommandResult, now: nat)
    ensures var t := Store(s, key, result, now);
            t == s.(log := t.log, duplicates := t.duplicates) && s.log <= t.log
  {
    hide ResponseBytes;
  }

  /** Sending changes no account and no table. */
  lemma SendSettles(s: State, env: Env, to: Addr, m: Message, k: Key)
    requires TablesOk(s) && m.kind == Response
    ensures var t := SendPayload(s, env, to, m).state;
            && TablesOk(t) && t == s.(log := t.log) && s.log <= t.log
            && Debt(t, k) == Debt(s, k) && Missing(t, k) == Missing(s, k) && Slack(t, k) == Slack(s, k)
            && (Tracked(t, k) <==> Tracked(s, k))
            && forall tag :: Tally(t.log, tag, k) == Tally(s.log, tag, k)
  {
    hide Tally, SendPayload, Waiting, Tracked;
    SendQuiet(s, env, to, m, k);
    var t := SendPayload(s, env, to, m).state;
    assert t == s.(log := t.log);
    SameLogTables(s, t.log, k);
  }

  lemma SameLogTables(s: State, log: Log, k: Key)
    ensures TablesOk(s) ==> TablesOk(s.(log := log))
    ensures Tracked(s.(log := log), k) <==> Tracked(s, k)
  {
  }

  lemma EvictedWasTracked(s: State, key: Key, k: Key)
    requires !Tracked(s, key)
    ensures Evicts(s, k) ==> k != key && Tracked(s, k)
  {
    if Evicts(s, k) { assert s.duplicates[0].key == k; }
  }

  // ---------------------------------------------------------------- requests

  /** Callbacks about one request that has just been decoded. */
  ghost predicate About(e: Event, key: Key, payload: Bytes) {
    && (e.PolicyAsked? || e.Handed? || e.Invoked? || e.Answered?)
    && e.context.key == key && DecodeRequest(payload) == Some(e.context.invocation)
  }

  /** The result `Admit` answers with is the one it reported, or one of its own refusals. */
  ghost predicate AnswerFrom(pre: Log, key: Key, payload: Bytes, result: CommandResult) {
    || (exists e :: e in pre && e.Answered? && e.result == result && About(e, key, payload))
    || (result == MALFORMED && DecodeRequest(payload).None?)
    || (result in {EXHAUSTED, NOT_HANDED} && DecodeRequest(payload).Some?)
  }

  predicate SameKind(d: Event, e: Event) {
    (d.PolicyAsked? && e.PolicyAsked?) || (d.Handed? && e.Handed?) || (d.Invoked? && e.Invoked?)
  }

  /** Each of the three callbacks occurs at most once. */
  ghost predicate DistinctKinds(es: Log) {
    forall i, j :: 0 <= i < j < |es| ==> !SameKind(es[i], es[j])
  }

  /** Whatever the callbacks say, `Admit` reports a few events and then answers or hands over. */
  lemma AdmitShape(s: State, env: Env, key: Key, payload: Bytes, now: nat) returns (pre: Log, r: Option<CommandResult>)
    ensures DistinctKinds(pre) && forall i :: 0 <= i < |pre| ==> About(pre[i], key, payload)
    ensures r.Some? ==> AnswerFrom(pre, key, payload, r.value)
    ensures r.Some? ==> Admit(s, env, key, payload, now) == Respond(Emit(s, pre), env, key, r.value, now)
    ensures r.None? ==> DecodeRequest(payload).Some? && |s.inbound| < s.config.maxInbound
    ensures r.None? ==>
      Admit(s, env, key, payload, now).state
      == Emit(s, pre).(inbound := s.inbound + [Inbound(Context(key, DecodeRequest(payload).value), now)])
  {
    hide Respond, Execute, DecodeRequest;
    match DecodeRequest(payload)
    case None => pre, r := [], Some(MALFORMED); assert s.log + [] == s.log;
    case Some(invocation) =>
      var context := Context(key, invocation);
      if s.hasPolicy && !env.policy(context).success {
        var verdict := env.policy(context);
        pre, r := [PolicyAsked(context), Answered(context, verdict)], Some(verdict);
        assert pre[1] in pre;
        assert s.log + pre == (s.log + [PolicyAsked(context)]) + [Answered(context, verdict)];
      } else {
        var asked: Log := if s.hasPolicy then [PolicyAsked(context)] else [];
        var s1 := if s.hasPolicy then Emit(s, [PolicyAsked(context)]) else s;
        assert s1 == Emit(s, asked) by { assert s.log + [] == s.log; }
        var post;
        post, r := ExecuteShape(s1, env, context, now);
        pre := asked + post;
        assert (s.log + asked) + post == s.log + pre;
        if r.Some? && r.value !in {EXHAUSTED, NOT_HANDED} {
          assert post[1] == pre[|asked| + 1] && post[1] in pre;
        }
      }
  }

  lemma ExecuteShape(s: State, env: Env, context: Context, now: nat) returns (pre: Log, r: Option<CommandResult>)
    ensures forall i :: 0 <= i < |pre| ==>
              (pre[i].Handed? || pre[i].Invoked? || pre[i].Answered?) && pre[i].context == context
    ensures DistinctKinds(pre)
    ensures r.Some? && r.value !in {EXHAUSTED, NOT_HANDED} ==> |pre| == 2 && pre[1] == Answered(context, r.value)
    ensures r.Some? ==> Execute(s, env, context, now) == Respond(Emit(s, pre), env, context.key, r.value, now)
    ensures r.None? ==> |s.inbound| < s.config.maxInbound
    ensures r.None? ==>
      Execute(s, env, context, now).state == Emit(s, pre).(inbound := s.inbound + [Inbound(context, now)])
  {
    hide Respond;
    if !s.hasHandler {
      var result := env.registry(context.invocation);
      pre, r := [Invoked(context, result), Answered(context, result)], Some(result);
    } else if |s.inbound| >= s.config.maxInbound {
      pre, r := [], Some(EXHAUSTED);
      assert s.log + [] == s.log;
    } else {
      pre := [Handed(context)];
      r := if env.handler(context) then None else Some(NOT_HANDED);
    }
  }

  /** `Execute` and `Admit` settle the admission their caller has just recorded. */
  ghost predicate Settles(s: State, t: State, key: Key, k: Key) {
    && TablesOk(t) && t.initialized == s.initialized && t.config == s.config
    && t.pending == s.pending && t.slots == s.slots
    && Debt(t, k) == Debt(s, k) - (if k == key then 1 else 0)
    && Slack(t, k) >= Slack(s, k) - (if k == key then 1 else 0)
    && Missing(t, k) == Missing(s, k)
    && s.log <= t.log && Tally(t.log, Admits, k) == Tally(s.log, Admits, k)
    && NoStart(s, t, k) && NoArrival(s, t, k)
  }

  /** No identifier was drawn; no request started, was sent or failed to be sent. */
  ghost predicate NoStart(s: State, t: State, k: Key) {
    && t.drawn == s.drawn && t.nextId == s.nextId
    && Tally(t.log, Starts, k) == Tally(s.log, Starts, k)
    && Tally(t.log, SendFails, k) == Tally(s.log, SendFails, k)
    && Tally(t.log, RequestSends, k) == Tally(s.log, RequestSends, k)
  }

  /** No message from `k` was put together. */
  ghost predicate NoArrival(s: State, t: State, k: Key) {
    s.log <= t.log && Tally(t.log, Assembles, k) == Tally(s.log, Assembles, k)
  }

  /** At most one callback of each kind, and only for `key`. */
  ghost predicate OneEach(s: State, t: State, key: Key, k: Key) {
    forall tag :: Executes(tag) ==>
      Tally(t.log, tag, k) <= Tally(s.log, tag, k) + if k == key then 1 else 0
  }

  /** Appending `e`, which no table depends on, before going on. */
  lemma EmitOne(s: State, e: Event, k: Key)
    requires TablesOk(s) && !e.Submitted? && !e.Completed? && !e.Admitted? && !e.Forgot? && !e.Transmitted?
             && !e.Stored?
    ensures TablesOk(Emit(s, [e])) && Debt(Emit(s, [e]), k) == Debt(s, k) && Missing(Emit(s, [e]), k) == Missing(s, k)
    ensures Slack(Emit(s, [e]), k) == Slack(s, k)
    ensures forall tag :: Tally(Emit(s, [e]).log, tag, k) == Tally(s.log, tag, k) + if Counts(e, tag, k) then 1 else 0
  {
    hide Tally, Waiting;
    forall tag ensures Tally(s.log + [e], tag, k) == Tally(s.log, tag, k) + if Counts(e, tag, k) then 1 else 0 {
      TallyOne(s.log, e, tag, k);
    }
  }

  lemma InboundPush(s: State, context: Context, now: nat, k: Key)
    requires TablesOk(s) && s.initialized && !Tracked(s, context.key) && |s.inbound| < s.config.maxInbound
    ensures var t := s.(inbound := s.inbound + [Inbound(context, now)]);
            && TablesOk(t) && (Tracked(t, k) <==> k == context.key || Tracked(s, k))
            && (InboundHas(t.inbound, k) <==> k == context.key || InboundHas(s.inbound, k))
  {
    var xs := s.inbound + [Inbound(context, now)];
    assert xs[|xs| - 1].context.key == context.key;
    forall x ensures InboundHas(xs, x) <==> x == context.key || InboundHas(s.inbound, x) {
      if InboundHas(s.inbound, x) {
        var i :| 0 <= i < |s.inbound| && s.inbound[i].context.key == x;
        assert xs[i].context.key == x;
      }
    }
    forall i, j | 0 <= i < j < |xs| ensures xs[i].context.key != xs[j].context.key {
      if j == |xs| - 1 { assert InboundHas(s.inbound, s.inbound[i].context.key); }
    }
  }

  /** Appending callbacks about an admitted request changes no table and no balance. */
  lemma EmitAbout(s: State, es: Log, key: Key, payload: Bytes, k: Key)
    requires TablesOk(s) && forall i :: 0 <= i < |es| ==> About(es[i], key, payload)
    ensures TablesOk(Emit(s, es)) && Debt(Emit(s, es), k) == Debt(s, k) && Missing(Emit(s, es), k) == Missing(s, k)
    ensures Slack(Emit(s, es), k) == Slack(s, k)
    ensures forall tag :: Tally(Emit(s, es).log, tag, k) == Tally(s.log, tag, k) + Tally(es, tag, k)
    ensures forall tag :: !Executes(tag) ==> Tally(es, tag, k) == 0
  {
    hide Tally;
    forall tag ensures Tally(s.log + es, tag, k) == Tally(s.log, tag, k) + Tally(es, tag, k) {
      TallyAppend(s.log, es, tag, k);
    }
    forall tag | !Executes(tag) ensures Tally(es, tag, k) == 0 {
      TallyNone(es, tag, k);
    }
  }

  lemma AdmitSettles(s: State, env: Env, key: Key, payload: Bytes, now: nat, k: Key)
    requires TablesOk(s) && s.initialized && !Tracked(s, key)
    ensures var t := Admit(s, env, key, payload, now).state;
            Settles(s, t, key, k) && OneEach(s, t, key, k)
  {
    hide Tally, Respond, Admit, About, AnswerFrom, DecodeRequest, DistinctKinds, Waiting;
    var pre, r := AdmitShape(s, env, key, payload, now);
    EmitAbout(s, pre, key, payload, k);
    forall tag ensures Tally(pre, tag, k) <= if k == key then 1 else 0 {
      OncePerKind(pre, key, payload, tag, k);
    }
    if r.Some? {
      RespondSettles(Emit(s, pre), env, key, r.value, now, k);
    } else {
      InboundPush(Emit(s, pre), Context(key, DecodeRequest(payload).value), now, k);
    }
  }

  lemma {:induction false} OncePerKind(es: Log, key: Key, payload: Bytes, tag: Tag, k: Key)
    requires DistinctKinds(es) && forall i :: 0 <= i < |es| ==> About(es[i], key, payload)
    ensures Tally(es, tag, k) <= if k == key then 1 else 0
  {
    hide DecodeRequest;
    if es != [] {
      var n := |es| - 1;
      if Counts(es[n], tag, k) {
        forall i | 0 <= i < n ensures !Counts(es[i], tag, k) { assert !SameKind(es[i], es[n]); }
        TallyNone(es[..n], tag, k);
      } else {
        OncePerKind(es[..n], key, payload, tag, k);
      }
    }
  }

  lemma TrackedByFirst(s: State, k: Key)
    ensures InboundHas(s.inbound, k) <==> First(s.inbound, InboundIs(k)) < |s.inbound|
    ensures CachedHas(s.duplicates, k) <==> First(s.duplicates, CachedIs(k)) < |s.duplicates|
    ensures Tracked(s, k) <==> InboundHas(s.inbound, k) || CachedHas(s.duplicates, k)
  {
    var i, j := First(s.inbound, InboundIs(k)), First(s.duplicates, CachedIs(k));
    if i < |s.inbound| { assert InboundIs(k)(s.inbound[i]); }
    if j < |s.duplicates| { assert CachedIs(k)(s.duplicates[j]); }
    if InboundHas(s.inbound, k) {
      var x :| 0 <= x < |s.inbound| && s.inbound[x].context.key == k;
      assert InboundIs(k)(s.inbound[x]);
    }
    if CachedHas(s.duplicates, k) {
      var x :| 0 <= x < |s.duplicates| && s.duplicates[x].key == k;
      assert CachedIs(k)(s.duplicates[x]);
    }
  }

  /** What every call keeps, for one key. */
  ghost predicate Keeps(s: State, t: State, k: Key) {
    && TablesOk(t) && Advances(s, t, k)
    && Debt(t, k) == Debt(s, k) && Missing(t, k) == Missing(s, k) && Slack(t, k) >= Slack(s, k)
  }

  ghost predicate KeepsQuietly(s: State, t: State, k: Key) { Keeps(s, t, k) && NoStart(s, t, k) }

  lemma EmitTables(s: State, es: Log, k: Key)
    ensures TablesOk(s) ==> TablesOk(Emit(s, es))
    ensures Tracked(Emit(s, es), k) <==> Tracked(s, k)
  {
  }

  /** A request is admitted exactly when it is not recognised. */
  lemma HandleRequestKeeps(s: State, env: Env, key: Key, payload: Bytes, now: nat, k: Key)
    requires TablesOk(s) && s.initialized
    ensures KeepsQuietly(s, HandleRequest(s, env, key, payload, now).state, k)
            && NoArrival(s, HandleRequest(s, env, key, payload, now).state, k)
  {
    hide Tally, Admit, SendPayload, TablesOk, Tracked, Waiting, Debt, Missing, Slack, First;
    TrackedByFirst(s, key);
    var at := First(s.duplicates, CachedIs(key));
    if at < |s.duplicates| {
      SendKeeps(s, env, key.peer, Message(Response, key.id, s.duplicates[at].encoded), k);
      SendQuiet(s, env, key.peer, Message(Response, key.id, s.duplicates[at].encoded), k);
    } else if First(s.inbound, InboundIs(key)) == |s.inbound| {
      var s1 := Emit(s, [Admitted(key)]);
      EmitTables(s, [Admitted(key)], key);
      AdmittedOwes(s, key, k);
      AdmitSettles(s1, env, key, payload, now, k);
    }
  }

  /** An admission is a debt until it is answered. */
  lemma AdmittedOwes(s: State, key: Key, k: Key)
    ensures var t, one := Emit(s, [Admitted(key)]), if k == key then 1 else 0;
            && Debt(t, k) == Debt(s, k) + one && Slack(t, k) == Slack(s, k) + one && Missing(t, k) == Missing(s, k)
    ensures forall tag :: Tally(Emit(s, [Admitted(key)]).log, tag, k)
                       == Tally(s.log, tag, k) + if Counts(Admitted(key), tag, k) then 1 else 0
  {
    hide Tally;
    forall tag
      ensures Tally(s.log + [Admitted(key)], tag, k)
           == Tally(s.log, tag, k) + if Counts(Admitted(key), tag, k) then 1 else 0
    {
      TallyOne(s.log, Admitted(key), tag, k);
    }
    EmitTables(s, [Admitted(key)], k);
  }

  lemma HandleResponseKeeps(s: State, key: Key, payload: Bytes, k: Key)
    requires TablesOk(s) && s.initialized
    ensures KeepsQuietly(s, HandleResponse(s, key, payload).state, k)
            && NoArrival(s, HandleResponse(s, key, payload).state, k)
  {
    hide Tally, Waiting;
    var at := First(s.pending, PendingIs(key));
    if DecodeResponse(payload).Some? && at < |s.pending| {
      var e := Completed(key, DecodeResponse(payload).value, ByResponse);
      forall tag ensures Tally(s.log + [e], tag, k) == Tally(s.log, tag, k) + if Counts(e, tag, k) then 1 else 0 {
        TallyOne(s.log, e, tag, k);
      }
      assert PendingIs(key)(s.pending[at]);
      WaitingRemove(s.pending, at, k);
    }
  }

  lemma DispatchKeeps(s: State, env: Env, key: Key, kind: MessageType, payload: Bytes, now: nat, k: Key)
    requires TablesOk(s) && s.initialized
    ensures KeepsQuietly(s, Dispatch(s, env, key, kind, payload, now).state, k)
  {
    hide HandleRequest, HandleResponse, TablesOk, Debt, Missing, Slack, Tally;
    var s1 := Emit(s, [Assembled(key, kind, payload)]);
    EmitOne(s, Assembled(key, kind, payload), k);
    match kind
    case Request => HandleRequestKeeps(s1, env, key, payload, now, k);
    case Response => HandleResponseKeeps(s1, key, payload, k);
  }

  // ---------------------------------------------------------------- reassembly

  /** Whatever the frame, the reassembly table keeps its shape and its bound. */
  lemma ReassembleKeeps(slots: seq<Slot>, c: Config, key: Key, h: Header, data: Bytes, now: nat)
    requires c.maxPayload > HEADER_SIZE && |data| == h.length && h.index < h.count
    requires SlotsOk(slots) && |slots| <= c.maxReassemblies
    ensures var r := Reassemble(slots, c, key, h, data, now);
            r.Dropped? || (SlotsOk(r.slots) && |r.slots| <= c.maxReassemblies)
  {
    var offset := Start(Capacity(c.maxPayload), h.index);
    if offset < h.total && h.length <= h.total - offset {
      var at := First(slots, SlotIs(key, h.kind));
      if at == |slots| {
        if |slots| < c.maxReassemblies {
          var blank: Slot := Slot(key, h.kind, h.total, h.count, {}, 0, now, seq(h.total, _ => 0));
          forall i | 0 <= i < |slots| ensures slots[i].key != key || slots[i].kind != h.kind {
            assert !SlotIs(key, h.kind)(slots[i]);
          }
          assert SlotsOk(slots + [blank]);
          SettleKeeps(slots + [blank], at, Take(blank, h.index, offset, data, now), true);
        }
      } else if slots[at].total == h.total && slots[at].count == h.count {
        var agrees := h.index !in slots[at].received || slots[at].buffer[offset..offset + h.length] == data;
        SettleKeeps(slots, at, Take(slots[at], h.index, offset, data, now), agrees);
      }
    }
  }

  lemma SettleKeeps(slots: seq<Slot>, at: nat, slot: Slot, agrees: bool)
    requires at < |slots| && SlotsOk(slots) && slot.key == slots[at].key && slot.kind == slots[at].kind
    requires slot.received <= AllIndices(slot.count)
    ensures var r := Settle(slots, at, slot, agrees); !r.Dropped? && SlotsOk(r.slots) && |r.slots| <= |slots|
  {
  }

  lemma ReceiveKeeps(s: State, env: Env, peer: Addr, data: Bytes, now: nat, k: Key)
    requires TablesOk(s)
    ensures KeepsQuietly(s, Receive(s, env, peer, data, now).state, k)
  {
    hide Dispatch, Reassemble, Tally;
    var parsed := ParseFrame(data);
    if s.initialized && parsed.Some? {
      var (h, bytes) := parsed.value;
      var key := Key(peer, h.id);
      if h.total <= s.config.maxMessage {
        if h.count == 1 {
          DispatchKeeps(s, env, key, h.kind, bytes, now, k);
        } else {
          ReassembleKeeps(s.slots, s.config, key, h, bytes, now);
          var r := Reassemble(s.slots, s.config, key, h, bytes, now);
          if r.Whole? { DispatchKeeps(s.(slots := r.slots), env, key, h.kind, r.payload, now, k); }
        }
      }
    }
  }

  // ---------------------------------------------------------------- the other calls

  /** A request enters the pending table. */
  lemma SubmitKeeps(s: State, key: Key, inv: Invocation, payload: Bytes, now: nat, k: Key)
    requires TablesOk(s) && s.initialized && |s.pending| < s.config.maxOutstanding
    ensures var t := Emit(s, [Submitted(key, inv, payload)]).(pending := s.pending + [Pending(key, now)]);
            Keeps(s, t, k) && NoArrival(s, t, k)
  {
    hide Tally, Waiting;
    var started := Submitted(key, inv, payload);
    forall tag
      ensures Tally(s.log + [started], tag, k) == Tally(s.log, tag, k) + if Counts(started, tag, k) then 1 else 0
    {
      TallyOne(s.log, started, tag, k);
    }
    WaitingOne(s.pending, Pending(key, now), k);
  }

  /** The request at the end of the pending table fails to be sent. */
  lemma UnsubmitKeeps(s: State, k: Key)
    requires TablesOk(s) && s.pending != []
    ensures var n := |s.pending| - 1;
            var t := Emit(s, [Completed(s.pending[n].key, SEND_FAILED, BySendFailure)]).(pending := s.pending[..n]);
            Keeps(s, t, k) && NoArrival(s, t, k)
  {
    hide Tally, Waiting;
    var n := |s.pending| - 1;
    var ended := Completed(s.pending[n].key, SEND_FAILED, BySendFailure);
    forall tag ensures Tally(s.log + [ended], tag, k) == Tally(s.log, tag, k) + if Counts(ended, tag, k) then 1 else 0 {
      TallyOne(s.log, ended, tag, k);
    }
    WaitingOne(s.pending[..n], s.pending[n], k);
    assert s.pending == s.pending[..n] + [s.pending[n]];
  }

  lemma SendKeeps(s: State, env: Env, to: Addr, m: Message, k: Key)
    requires TablesOk(s)
    ensures var t := SendPayload(s, env, to, m).state; Keeps(s, t, k) && NoArrival(s, t, k)
  {
    hide Tally;
    SendQuiet(s, env, to, m, k);
  }

  lemma KeepsTrans(s: State, t: State, u: State, k: Key)
    requires Keeps(s, t, k) && NoArrival(s, t, k) && Keeps(t, u, k) && NoArrival(t, u, k)
    ensures Keeps(s, u, k) && NoArrival(s, u, k)
    ensures NoStart(s, t, k) && NoStart(t, u, k) ==> NoStart(s, u, k)
  {
    hide Tally, TablesOk, Debt, Missing, Slack;
  }

  /** Drawing an identifier changes no table and no log. */
  lemma DrawKeeps(s: State, k: Key)
    requires TablesOk(s)
    ensures var t := s.(nextId := NextId(s.nextId), drawn := s.drawn + 1);
            Keeps(s, t, k) && NoArrival(s, t, k)
  {
    hide Tally, Waiting;
  }

  lemma SelfKeeps(s: State, k: Key)
    requires TablesOk(s)
    ensures Keeps(s, s, k) && NoArrival(s, s, k)
  {
  }

  lemma SameIdTables(s: State, t: State)
    requires TablesOk(s) && t == s.(nextId := t.nextId, drawn := t.drawn)
    ensures TablesOk(t)
  {
  }

  lemma CallKeeps(s: State, env: Env, peer: Addr, inv: Invocation, now: nat, k: Key)
    requires TablesOk(s)
    ensures Keeps(s, Call(s, env, peer, inv, now).state, k) && NoArrival(s, Call(s, env, peer, inv, now).state, k)
  {
    hide Tally, SendPayload, RequestBytes, Encodable, Waiting, Keeps, NoArrival, NextId;
    DrawKeeps(s, k);
    SelfKeeps(s, k);
    if s.initialized && inv.path != [] && |s.pending| < s.config.maxOutstanding
       && Encodable(inv) && |RequestBytes(inv)| <= s.config.maxMessage {
      var key := Key(peer, DrawId(s.nextId));
      var s1 := s.(nextId := NextId(s.nextId), drawn := s.drawn + 1);
      var s2 := Emit(s1, [Submitted(key, inv, RequestBytes(inv))]).(pending := s.pending + [Pending(key, now)]);
      var m := Message(Request, key.id, RequestBytes(inv));
      var o := SendPayload(s2, env, peer, m);
      assert TablesOk(s1) by { SameIdTables(s, s1); }
      SubmitKeeps(s1, key, inv, RequestBytes(inv), now, k);
      KeepsTrans(s, s1, s2, k);
      SendKeeps(s2, env, peer, m, k);
      SendQuiet(s2, env, peer, m, k);
      KeepsTrans(s, s2, o.state, k);
      UnsubmitKeeps(o.state, k);
      var n := |o.state.pending| - 1;
      assert o.state.pending[..n] == s.pending;
      KeepsTrans(s, o.state, Emit(o.state, [Completed(key, SEND_FAILED, BySendFailure)]).(pending := s.pending), k);
    }
  }

  lemma InboundRemove(s: State, at: nat, k: Key)
    requires TablesOk(s) && at < |s.inbound|
    ensures var t := s.(inbound := Remove(s.inbound, at));
            && TablesOk(t) && !Tracked(t, s.inbound[at].context.key)
            && (k != s.inbound[at].context.key ==> (Tracked(t, k) <==> Tracked(s, k)))
            && (InboundHas(t.inbound, k) <==> InboundHas(s.inbound, k) && k != s.inbound[at].context.key)
  {
    var xs, ys := s.inbound, Remove(s.inbound, at);
    forall x ensures InboundHas(ys, x) <==> InboundHas(xs, x) && x != xs[at].context.key {
      if InboundHas(ys, x) {
        var i :| 0 <= i < |ys| && ys[i].context.key == x;
        assert xs[if i < at then i else i + 1].context.key == x;
      }
      if InboundHas(xs, x) && x != xs[at].context.key {
        var i :| 0 <= i < |xs| && xs[i].context.key == x;
        assert ys[if i < at then i else i - 1].context.key == x;
      }
    }
    assert InboundHas(xs, xs[at].context.key);
  }

  lemma CompleteKeeps(s: State, env: Env, key: Key, result: CommandResult, now: nat, k: Key)
    requires TablesOk(s)
    ensures KeepsQuietly(s, Complete(s, env, key, result, now).state, k)
            && NoArrival(s, Complete(s, env, key, result, now).state, k)
  {
    hide Tally, Respond;
    var at := First(s.inbound, InboundIs(key));
    if s.initialized && at < |s.inbound| {
      assert InboundIs(key)(s.inbound[at]);
      var answered := Answered(s.inbound[at].context, result);
      EmitOne(s, answered, k);
      var s1 := Emit(s, [answered]).(inbound := Remove(s.inbound, at));
      InboundRemove(Emit(s, [answered]), at, k);
      assert InboundHas(s.inbound, key);
      RespondSettles(s1, env, key, result, now, k);
    }
  }

  // ---------------------------------------------------------------- sweeping and stopping

  lemma FilterInbound(s: State, p: Inbound -> bool, k: Key)
    requires TablesOk(s)
    ensures TablesOk(s.(inbound := Filter(s.inbound, p)))
    ensures DistinctInbound(Filter(s.inbound, Not(p)))
    ensures InboundHas(Filter(s.inbound, p), k) || InboundHas(Filter(s.inbound, Not(p)), k)
            <==> InboundHas(s.inbound, k)
    ensures !(InboundHas(Filter(s.inbound, p), k) && InboundHas(Filter(s.inbound, Not(p)), k))
  {
    var xs, live, dead := s.inbound, Filter(s.inbound, p), Filter(s.inbound, Not(p));
    forall i, j | 0 <= i < j < |live| ensures live[i].context.key != live[j].context.key {
      var a, b := FilterPair(xs, p, i, j);
    }
    forall i, j | 0 <= i < j < |dead| ensures dead[i].context.key != dead[j].context.key {
      var a, b := FilterPair(xs, Not(p), i, j);
    }
    forall x ensures InboundHas(live, x) ==> InboundHas(xs, x) {
      if InboundHas(live, x) {
        var i :| 0 <= i < |live| && live[i].context.key == x;
        assert live[i] in xs;
      }
    }
    forall i, j | 0 <= i < |live| && 0 <= j < |dead| ensures live[i].context.key != dead[j].context.key {
      assert live[i] in xs && dead[j] in xs && p(live[i]) && Not(p)(dead[j]);
      var a :| 0 <= a < |xs| && xs[a] == live[i];
      var b :| 0 <= b < |xs| && xs[b] == dead[j];
      assert a != b;
    }
    if InboundHas(dead, k) {
      var j :| 0 <= j < |dead| && dead[j].context.key == k;
      assert dead[j] in xs;
    }
    if InboundHas(xs, k) {
      var i :| 0 <= i < |xs| && xs[i].context.key == k;
      if p(xs[i]) { assert xs[i] in live; } else { assert Not(p)(xs[i]); assert xs[i] in dead; }
    }
  }

  /** Answering a list of untracked requests settles each of them once. */
  lemma {:induction false} ExpireInboundSettles(s: State, env: Env, xs: seq<Inbound>, now: nat, k: Key)
    requires TablesOk(s) && s.initialized && DistinctInbound(xs)
    requires forall i :: 0 <= i < |xs| ==> !Tracked(s, xs[i].context.key)
    ensures var t := ExpireInbound(s, env, xs, now);
            && TablesOk(t) && t == s.(log := t.log, duplicates := t.duplicates) && s.log <= t.log
            && (Tracked(t, k) ==> Tracked(s, k) || InboundHas(xs, k))
            && Debt(t, k) == Debt(s, k) - (if InboundHas(xs, k) then 1 else 0)
            && Slack(t, k) >= Slack(s, k) - (if InboundHas(xs, k) then 1 else 0)
            && Missing(t, k) == Missing(s, k)
            && forall tag :: !Remembers(tag) ==> Tally(t.log, tag, k) == Tally(s.log, tag, k)
  {
    hide Tally, Respond, TablesOk;
    if xs != [] {
      var front, last := xs[..|xs| - 1], xs[|xs| - 1];
      ExpireInboundSettles(s, env, front, now, k);
      ExpireInboundSettles(s, env, front, now, last.context.key);
      var s1 := ExpireInbound(s, env, front, now);
      assert !InboundHas(front, last.context.key);
      var answered := Answered(last.context, INBOUND_TIMED_OUT);
      EmitOne(s1, answered, k);
      RespondSettles(Emit(s1, [answered]), env, last.context.key, INBOUND_TIMED_OUT, now, k);
      InboundSnoc(front, last, k);
      assert xs == front + [last];
    }
  }

  lemma InboundSnoc(front: seq<Inbound>, last: Inbound, k: Key)
    ensures InboundHas(front + [last], k) <==> InboundHas(front, k) || last.context.key == k
  {
    var xs := front + [last];
    assert xs[|front|] == last;
    if InboundHas(front, k) {
      var i :| 0 <= i < |front| && front[i].context.key == k;
      assert xs[i].context.key == k;
    }
  }

  lemma CachedSplit(xs: seq<Cached>, p: Cached -> bool, k: Key)
    requires DistinctCached(xs)
    ensures DistinctCached(Filter(xs, p)) && DistinctCached(Filter(xs, Not(p)))
    ensures CachedHas(Filter(xs, p), k) || CachedHas(Filter(xs, Not(p)), k) <==> CachedHas(xs, k)
    ensures !(CachedHas(Filter(xs, p), k) && CachedHas(Filter(xs, Not(p)), k))
  {
    var live, dead := Filter(xs, p), Filter(xs, Not(p));
    forall i, j | 0 <= i < j < |live| ensures live[i].key != live[j].key {
      var a, b := FilterPair(xs, p, i, j);
    }
    forall i, j | 0 <= i < j < |dead| ensures dead[i].key != dead[j].key {
      var a, b := FilterPair(xs, Not(p), i, j);
    }
    if CachedHas(live, k) {
      var j :| 0 <= j < |live| && live[j].key == k;
      assert live[j] in xs;
    }
    forall i, j | 0 <= i < |live| && 0 <= j < |dead| ensures live[i].key != dead[j].key {
      assert live[i] in xs && dead[j] in xs && p(live[i]) && Not(p)(dead[j]);
      var a :| 0 <= a < |xs| && xs[a] == live[i];
      var b :| 0 <= b < |xs| && xs[b] == dead[j];
      assert a != b;
    }
    if CachedHas(dead, k) {
      var j :| 0 <= j < |dead| && dead[j].key == k;
      assert dead[j] in xs;
    }
    if CachedHas(xs, k) {
      var i :| 0 <= i < |xs| && xs[i].key == k;
      if p(xs[i]) { assert xs[i] in live; } else { assert Not(p)(xs[i]); assert xs[i] in dead; }
    }
  }

  lemma CachedLosses(xs: seq<Cached>, loss: Loss, tag: Tag, k: Key)
    requires DistinctCached(xs)
    ensures Tally(Losses(CachedKeys(xs), loss), tag, k) == if tag == Forgets && CachedHas(xs, k) then 1 else 0
  {
    LossesTally(CachedKeys(xs), loss, tag, k);
    OccursOnce(CachedKeys(xs), k);
    if CachedHas(xs, k) {
      var i :| 0 <= i < |xs| && xs[i].key == k;
      assert CachedKeys(xs)[i] == k;
    }
  }

  lemma InboundLosses(xs: seq<Inbound>, loss: Loss, tag: Tag, k: Key)
    requires DistinctInbound(xs)
    ensures Tally(Losses(InboundKeys(xs), loss), tag, k) == if tag == Forgets && InboundHas(xs, k) then 1 else 0
  {
    LossesTally(InboundKeys(xs), loss, tag, k);
    OccursOnce(InboundKeys(xs), k);
    if InboundHas(xs, k) {
      var i :| 0 <= i < |xs| && xs[i].context.key == k;
      assert InboundKeys(xs)[i] == k;
    }
  }

  lemma ExpireCacheTables(s: State, now: nat, k: Key)
    requires TablesOk(s)
    ensures TablesOk(ExpireCache(s, now))
    ensures var dead := Filter(s.duplicates, Not(CachedLive(now, s.config)));
            && DistinctCached(dead)
            && (Tracked(ExpireCache(s, now), k) <==> Tracked(s, k) && !CachedHas(dead, k))
  {
    hide Losses;
    var live := CachedLive(now, s.config);
    CachedSplit(s.duplicates, live, k);
    forall x | InboundHas(s.inbound, x) ensures !CachedHas(Filter(s.duplicates, live), x) {
      CachedSplit(s.duplicates, live, x);
    }
  }

  lemma ExpireCacheKeeps(s: State, now: nat, k: Key)
    requires TablesOk(s)
    ensures KeepsQuietly(s, ExpireCache(s, now), k) && NoArrival(s, ExpireCache(s, now), k)
  {
    hide Tally, Losses, TablesOk, Tracked, Waiting, DistinctCached, Filter, CachedLive, CachedHas, InboundHas,
         CachedKeys;
    var live := CachedLive(now, s.config);
    var dead := Filter(s.duplicates, Not(live));
    var es := Losses(CachedKeys(dead), Expired);
    ExpireCacheTables(s, now, k);
    forall tag
      ensures Tally(s.log + es, tag, k)
           == Tally(s.log, tag, k) + if tag == Forgets && CachedHas(dead, k) then 1 else 0
    {
      CachedLosses(dead, Expired, tag, k);
      TallyAppend(s.log, es, tag, k);
    }
    DeadWasTracked(s, live, k);
  }

  lemma DeadWasTracked(s: State, live: Cached -> bool, k: Key)
    ensures CachedHas(Filter(s.duplicates, Not(live)), k) ==> Tracked(s, k)
  {
    var dead := Filter(s.duplicates, Not(live));
    if CachedHas(dead, k) {
      var i :| 0 <= i < |dead| && dead[i].key == k;
      assert dead[i] in s.duplicates;
    }
  }

  lemma FilterSlots(xs: seq<Slot>, p: Slot -> bool)
    requires SlotsOk(xs)
    ensures SlotsOk(Filter(xs, p))
  {
    var ys := Filter(xs, p);
    forall i, j | 0 <= i < j < |ys| ensures ys[i].key != ys[j].key || ys[i].kind != ys[j].kind {
      var a, b := FilterPair(xs, p, i, j);
    }
    forall i | 0 <= i < |ys| ensures ys[i].received <= AllIndices(ys[i].count) {
      assert ys[i] in xs;
    }
  }

  lemma PendingSweepKeeps(s: State, p: Pending -> bool, k: Key)
    requires TablesOk(s)
    ensures var t := s.(pending := Filter(s.pending, p),
                        log := s.log + Completions(Filter(s.pending, Not(p)), TIMED_OUT, ByTimeout));
            KeepsQuietly(s, t, k) && NoArrival(s, t, k)
  {
    hide Tally, Waiting;
    var dead := Filter(s.pending, Not(p));
    var es := Completions(dead, TIMED_OUT, ByTimeout);
    WaitingFilter(s.pending, p, k);
    forall tag ensures Tally(s.log + es, tag, k) == Tally(s.log, tag, k) + if tag == Ends then Waiting(dead, k) else 0 {
      CompletionsTally(dead, TIMED_OUT, ByTimeout, tag, k);
      TallyAppend(s.log, es, tag, k);
    }
  }

  lemma InboundSweepKeeps(s: State, env: Env, now: nat, k: Key)
    requires TablesOk(s) && s.initialized
    ensures var live := InboundLive(now, s.config);
            var t := ExpireInbound(s.(inbound := Filter(s.inbound, live)), env, Filter(s.inbound, Not(live)), now);
            KeepsQuietly(s, t, k) && NoArrival(s, t, k) && t.initialized && t.slots == s.slots && t.config == s.config
  {
    hide Tally, ExpireInbound;
    var live := InboundLive(now, s.config);
    var dead := Filter(s.inbound, Not(live));
    var s1 := s.(inbound := Filter(s.inbound, live));
    FilterInbound(s, live, k);
    forall i | 0 <= i < |dead| ensures !Tracked(s1, dead[i].context.key) {
      FilterInbound(s, live, dead[i].context.key);
      assert InboundHas(dead, dead[i].context.key);
    }
    ExpireInboundSettles(s1, env, dead, now, k);
  }

  lemma SweepKeeps(s: State, env: Env, now: nat, k: Key)
    requires TablesOk(s)
    ensures KeepsQuietly(s, Sweep(s, env, now), k) && NoArrival(s, Sweep(s, env, now), k)
  {
    hide Tally, ExpireInbound, ExpireCache, Completions, Waiting;
    if s.initialized {
      var pendingLive := PendingLive(now, s.config);
      var s1 := s.(pending := Filter(s.pending, pendingLive),
                   log := s.log + Completions(Filter(s.pending, Not(pendingLive)), TIMED_OUT, ByTimeout));
      PendingSweepKeeps(s, pendingLive, k);
      InboundSweepKeeps(s1, env, now, k);
      var inboundLive := InboundLive(now, s.config);
      var s2 := ExpireInbound(s1.(inbound := Filter(s.inbound, inboundLive)), env,
                              Filter(s.inbound, Not(inboundLive)), now);
      KeepsTrans(s, s1, s2, k);
      SlotSweepKeeps(s2, SlotLive(now, s.config), k);
      var s3 := s2.(slots := Filter(s2.slots, SlotLive(now, s.config)));
      KeepsTrans(s, s2, s3, k);
      ExpireCacheKeeps(s3, now, k);
      KeepsTrans(s, s3, ExpireCache(s3, now), k);
    }
  }

  lemma SlotSweepKeeps(s: State, p: Slot -> bool, k: Key)
    requires TablesOk(s)
    ensures var t := s.(slots := Filter(s.slots, p)); KeepsQuietly(s, t, k) && NoArrival(s, t, k)
  {
    hide Tally;
    FilterSlots(s.slots, p);
  }

  lemma StopKeeps(s: State, k: Key)
    requires TablesOk(s)
    ensures KeepsQuietly(s, Stop(s), k) && NoArrival(s, Stop(s), k)
  {
    hide Tally, Waiting, Losses, Completions, InboundKeys, CachedKeys;
    if s.initialized {
      var a := Completions(s.pending, SHUT_DOWN, ByShutdown);
      var b := Losses(InboundKeys(s.inbound), ShutDown);
      var c := Losses(CachedKeys(s.duplicates), ShutDown);
      forall tag ensures Tally(s.log + (a + b + c), tag, k) == Tally(s.log, tag, k)
                           + (if tag == Ends then Waiting(s.pending, k) else 0)
                           + (if tag == Forgets && Tracked(s, k) then 1 else 0) {
        CompletionsTally(s.pending, SHUT_DOWN, ByShutdown, tag, k);
        InboundLosses(s.inbound, ShutDown, tag, k);
        CachedLosses(s.duplicates, ShutDown, tag, k);
        TallyAppend(a, b, tag, k);
        TallyAppend(a + b, c, tag, k);
        TallyAppend(s.log, a + b + c, tag, k);
      }
      WaitingNone(k);
    } else {
      assert s.log + [] == s.log;
    }
  }

  lemma WaitingNone(k: Key)
    ensures Waiting([], k) == 0
  {
  }

  // ---------------------------------------------------------------- runs

  lemma ApplyKeeps(s: State, a: Action, k: Key)
    requires TablesOk(s)
    ensures Keeps(s, Apply(s, a), k)
    ensures !a.DoInvoke? ==> NoStart(s, Apply(s, a), k)
    ensures !a.DoReceive? ==> NoArrival(s, Apply(s, a), k)
  {
    hide Tally, Stop, Call, Receive, Complete, Sweep;
    match a
    case Initialize(c) => StopKeeps(s, k); StoppedIsEmpty(s);
    case Shutdown => StopKeeps(s, k);
    case SetPolicy(_) =>
    case SetHandler(_) =>
    case DoInvoke(env, peer, inv, now) => CallKeeps(s, env, peer, inv, now, k);
    case DoReceive(env, peer, data, now) => ReceiveKeeps(s, env, peer, data, now, k);
    case DoComplete(env, key, result, now) => CompleteKeeps(s, env, key, result, now, k);
    case DoUpdate(env, now) => SweepKeeps(s, env, now, k);
  }

  /** Handling a complete message leaves the reassembly table and the configuration alone. */
  lemma DispatchFrame(s: State, env: Env, key: Key, kind: MessageType, payload: Bytes, now: nat)
    ensures SameFrame(s, Dispatch(s, env, key, kind, payload, now).state)
  {
    hide Admit, Respond, SendPayload, DecodeRequest, DecodeResponse, First;
    var s1 := Emit(s, [Assembled(key, kind, payload)]);
    if kind == Request {
      var at := First(s1.duplicates, CachedIs(key));
      if at < |s1.duplicates| {
        var es := SendShape(s1, env, key.peer, Message(Response, key.id, s1.duplicates[at].encoded));
      } else {
        var s2 := Emit(s1, [Admitted(key)]);
        var pre, r := AdmitShape(s2, env, key, payload, now);
        if r.Some? { RespondFrame(Emit(s2, pre), env, key, r.value, now); }
      }
    }
  }

  ghost predicate SameFrame(s: State, t: State) {
    t.config == s.config && t.initialized == s.initialized && t.slots == s.slots
  }

  /** Only `Initialize` and `Shutdown` change the configuration or the readiness. */
  lemma ConfigKept(s: State, a: Action)
    requires TablesOk(s) && !a.Initialize? && !a.Shutdown?
    ensures Apply(s, a).config == s.config && Apply(s, a).initialized == s.initialized
    ensures !a.DoReceive? && !a.DoUpdate? ==> Apply(s, a).slots == s.slots
    ensures a.DoUpdate? && s.initialized ==> Apply(s, a).slots == Filter(s.slots, SlotLive(a.now, s.config))
  {
    hide Dispatch, Respond, Reassemble, SendPayload, First, RequestBytes, ParseFrame, Filter, Sweep;
    match a
    case DoUpdate(env, now) =>
      if s.initialized {
        ConfigOfSweep(s, env, now);
      } else {
        assert Sweep(s, env, now) == s by { SweepIdle(s, env, now); }
      }
    case DoComplete(env, key, result, now) =>
      var at := First(s.inbound, InboundIs(key));
      if s.initialized && at < |s.inbound| {
        var u := Emit(s, [Answered(s.inbound[at].context, result)]).(inbound := Remove(s.inbound, at));
        RespondFrame(u, env, key, result, now);
      }
    case DoReceive(env, peer, data, now) =>
      forall t: State, key, kind, payload ensures SameFrame(t, Dispatch(t, env, key, kind, payload, now).state) {
        DispatchFrame(t, env, key, kind, payload, now);
      }
    case DoInvoke(env, peer, inv, now) =>
      var key := Key(peer, DrawId(s.nextId));
      var s2 := Emit(s.(nextId := NextId(s.nextId), drawn := s.drawn + 1), [Submitted(key, inv, RequestBytes(inv))])
                .(pending := s.pending + [Pending(key, now)]);
      var es := SendShape(s2, env, peer, Message(Request, key.id, RequestBytes(inv)));
    case SetPolicy(_) =>
    case SetHandler(_) =>
    case Initialize(_) =>
    case Shutdown =>
  }

  lemma SweepIdle(s: State, env: Env, now: nat)
    requires !s.initialized
    ensures Sweep(s, env, now) == s
  {
  }

  lemma RespondFrame(s: State, env: Env, key: Key, result: CommandResult, now: nat)
    ensures SameFrame(s, Respond(s, env, key, result, now).state)
  {
    hide SendPayload, ResponseBytes;
    if Answerable(s.config, result) {
      var es := SendShape(Store(s, key, result, now), env, key.peer, Message(Response, key.id, ResponseBytes(result)));
    }
  }

  lemma ConfigOfSweep(s: State, env: Env, now: nat)
    requires TablesOk(s) && s.initialized
    ensures Sweep(s, env, now).config == s.config && Sweep(s, env, now).initialized
    ensures Sweep(s, env, now).slots == Filter(s.slots, SlotLive(now, s.config))
  {
    hide Tally, ExpireInbound, Completions, Losses;
    var pendingLive := PendingLive(now, s.config);
    var s1 := s.(pending := Filter(s.pending, pendingLive),
                 log := s.log + Completions(Filter(s.pending, Not(pendingLive)), TIMED_OUT, ByTimeout));
    PendingSweepKeeps(s, pendingLive, Key(0, 0));
    InboundSweepKeeps(s1, env, now, Key(0, 0));
  }

  lemma StoppedIsEmpty(s: State)
    ensures var t := Stop(s);
            !t.initialized && t.pending == [] && t.inbound == [] && t.slots == [] && t.duplicates == []
  {
  }

  /** The state after a run. Every table invariant holds in it, whatever was received. */
  ghost function Run(s: State, actions: seq<Action>): (t: State)
    requires TablesOk(s)
    ensures TablesOk(t)
  {
    if actions == [] then s
    else
      var u := Run(s, actions[..|actions| - 1]);
      ApplyKeeps(u, actions[|actions| - 1], Key(0, 0));
      Apply(u, actions[|actions| - 1])
  }

  lemma FreshOk(c: Config)
    ensures TablesOk(Fresh(c)) && forall k :: Balanced(Fresh(c), k) && Slack(Fresh(c), k) == 0
  {
  }

  /** An endpoint object from construction through a sequence of calls. */
  ghost function Lifetime(c: Config, actions: seq<Action>): (t: State)
    ensures TablesOk(t)
  {
    FreshOk(c);
    Run(Fresh(c), actions)
  }

  lemma {:induction false} RunKeeps(s: State, actions: seq<Action>, k: Key)
    requires TablesOk(s)
    ensures Keeps(s, Run(s, actions), k)
  {
    hide Tally, Apply, TablesOk;
    if actions != [] {
      var front := actions[..|actions| - 1];
      RunKeeps(s, front, k);
      ApplyKeeps(Run(s, front), actions[|actions| - 1], k);
    }
  }

  // ---------------------------------------------------------------- identifiers

  const MAXIMUM_IDS := 0xFFFF_FFFF_FFFF_FFFF

  /** As long as the 64-bit counter has not come round, identifiers are new and non-zero. */
  ghost predicate IdsOk(s: State, k: Key) {
    s.drawn <= MAXIMUM_IDS ==>
      && s.nextId as int == (s.drawn + 1) % 0x1_0000_0000_0000_0000
      && Tally(s.log, Starts, k) <= 1
      && (k.id == 0 || k.id > s.drawn ==> Tally(s.log, Starts, k) == 0)
  }

  lemma CallStarts(s: State, env: Env, peer: Addr, inv: Invocation, now: nat, k: Key)
    ensures var t := Call(s, env, peer, inv, now).state;
            || NoStart(s, t, k)
            || (t.drawn == s.drawn + 1 && t.nextId == NextId(s.nextId) &&
                Tally(t.log, Starts, k) <= Tally(s.log, Starts, k) + if k == Key(peer, DrawId(s.nextId)) then 1 else 0)
  {
    hide Tally, SendPayload, RequestBytes;
    if s.initialized && inv.path != [] && |s.pending| < s.config.maxOutstanding
       && Encodable(inv) && |RequestBytes(inv)| <= s.config.maxMessage {
      var key := Key(peer, DrawId(s.nextId));
      var started := Submitted(key, inv, RequestBytes(inv));
      var s2 := Emit(s.(nextId := NextId(s.nextId), drawn := s.drawn + 1), [started])
                .(pending := s.pending + [Pending(key, now)]);
      TallyOne(s.log, started, Starts, k);
      SendQuiet(s2, env, peer, Message(Request, key.id, RequestBytes(inv)), k);
      var o := SendPayload(s2, env, peer, Message(Request, key.id, RequestBytes(inv)));
      TallyOne(o.state.log, Completed(key, SEND_FAILED, BySendFailure), Starts, k);
    }
  }

  lemma IdsKept(s: State, a: Action, k: Key)
    requires TablesOk(s) && IdsOk(s, k)
    ensures IdsOk(Apply(s, a), k)
  {
    hide Tally, Call, Receive, Complete, Sweep, Stop;
    ApplyKeeps(s, a, k);
    if a.DoInvoke? { CallStarts(s, a.env, a.peer, a.invocation, a.now, k); }
  }

  lemma {:induction false} RunIds(s: State, actions: seq<Action>, k: Key)
    requires TablesOk(s) && IdsOk(s, k)
    ensures IdsOk(Run(s, actions), k)
  {
    hide Tally, Apply;
    if actions != [] {
      RunIds(s, actions[..|actions| - 1], k);
      IdsKept(Run(s, actions[..|actions| - 1]), actions[|actions| - 1], k);
    }
  }

  // ---------------------------------------------------------------- the theorems

  /**
   * Exactly-once completion. In every run each request that entered the pending table has
   * either completed once, for whichever reason, or is still pending; and identifiers are
   * non-zero and used once until the counter comes round.
   */
  lemma ExactlyOnceCompletion(c: Config, actions: seq<Action>, k: Key)
    ensures var s := Lifetime(c, actions);
            && Tally(s.log, Starts, k) == Tally(s.log, Ends, k) + Waiting(s.pending, k)
            && (s.drawn <= MAXIMUM_IDS && Tally(s.log, Starts, k) > 0 ==>
                  k.id != 0 && Tally(s.log, Ends, k) + Waiting(s.pending, k) == 1)
  {
    hide Tally, Run;
    FreshOk(c);
    assert Balanced(Fresh(c), k);
    RunKeeps(Fresh(c), actions, k);
    FreshIds(c, k);
    RunIds(Fresh(c), actions, k);
  }

  lemma FreshIds(c: Config, k: Key)
    ensures IdsOk(Fresh(c), k)
  {
  }

  /**
   * At-most-once execution. Over any run the policy, the handler and the registry each see
   * a request at most once more often than the receiver has lost track of it, and the
   * receiver recognises it exactly when its admissions outnumber its losses.
   */
  lemma AtMostOnceExecution(c: Config, actions: seq<Action>, k: Key, tag: Tag)
    requires Executes(tag)
    ensures var s := Lifetime(c, actions);
            && Tally(s.log, tag, k) <= Tally(s.log, Admits, k)
            && Tally(s.log, Admits, k) == Tally(s.log, Forgets, k) + (if Tracked(s, k) then 1 else 0)
            && Tally(s.log, tag, k) <= Tally(s.log, Forgets, k) + 1
  {
    hide Run;
    FreshOk(c);
    assert Balanced(Fresh(c), k);
    RunKeeps(Fresh(c), actions, k);
  }

  /** While an answer is remembered the request reaches no callback again, in any run. */
  lemma NoReexecutionWhileTracked(s: State, actions: seq<Action>, k: Key, tag: Tag)
    requires TablesOk(s) && Balanced(s, k) && Tracked(s, k) && Executes(tag)
    requires Tally(Run(s, actions).log, Forgets, k) == Tally(s.log, Forgets, k)
    ensures Tracked(Run(s, actions), k)
    ensures Tally(Run(s, actions).log, tag, k) == Tally(s.log, tag, k)
  {
    hide Run, Tally;
    RunKeeps(s, actions, k);
    TallyMonotone(s.log, Run(s, actions).log, tag, k);
    TallyMonotone(s.log, Run(s, actions).log, Admits, k);
  }

  lemma TallyMonotone(a: Log, b: Log, tag: Tag, k: Key)
    requires a <= b
    ensures Tally(a, tag, k) <= Tally(b, tag, k)
  {
    assert b == a + b[|a|..];
    TallyAppend(a, b[|a|..], tag, k);
  }
}
