/**
 * Any number of endpoints on a radio that loses, repeats and reorders frames. A frame can
 * be delivered at any time, any number of times or never, once its sender has transmitted
 * it. The end-to-end theorems tie what a caller is told to what the callee did.
 */
module CommandSystem {
  import opened Bytes
  import opened Chunks
  import opened CommandCodec
  import opened CommandFragments
  import opened CommandModel
  import opened CommandProvenance
  import opened CommandRuns
  import opened Reassembly
  import opened Sending
  import opened Tables

  // ---------------------------------------------------------------- one endpoint

  /** Every fragment of `m` has left for `to`. */
  ghost predicate FullySent(log: Log, to: Addr, m: Message, limit: nat) {
    && Count(m, limit) > 0
    && forall i :: 0 <= i < Count(m, limit) ==> Transmitted(to, Frame(limit, m, i), m, i) in log
  }

  /** Identifiers name one request each. */
  ghost predicate IdsUnique(s: State) {
    && s.nextId as int == (s.drawn + 1) % 0x1_0000_0000_0000_0000
    && (forall e :: e in s.log && e.Submitted? ==> 0 < e.key.id <= s.drawn)
    && (forall d, e :: d in s.log && e in s.log && d.Submitted? && e.Submitted? && d.key.id == e.key.id ==> d == e)
  }

  predicate FailedSending(e: Event) { e.Completed? && e.cause.BySendFailure? }

  /** A request whose sending failed never left in full. */
  ghost predicate FailuresIncomplete(s: State, limit: nat) {
    forall f, e :: f in s.log && e in s.log && FailedSending(f) && e.Submitted? && e.key == f.key ==>
      !FullySent(s.log, e.key.peer, Message(Request, e.key.id, e.payload), limit)
  }

  /** Every admission is accounted for (`CommandRuns`). */
  ghost predicate Accounted(s: State) { forall k :: Balanced(s, k) && Slack(s, k) >= 0 }

  ghost predicate LocalOk(s: State, limit: nat) {
    TablesOk(s) && Sound(s, limit) && IdsUnique(s) && FailuresIncomplete(s, limit) && Accounted(s)
  }

  lemma {:induction false} TallyPositive(log: Log, e: Event, tag: Tag, k: Key)
    requires e in log && Counts(e, tag, k)
    ensures Tally(log, tag, k) > 0
  {
    var n := |log| - 1;
    if log[n] != e {
      var i :| 0 <= i < |log| && log[i] == e;
      assert log[..n][i] == e;
      TallyPositive(log[..n], e, tag, k);
    }
  }

  /** A counted event that is not in the shorter log raises the count. */
  lemma NewEventCounts(a: Log, b: Log, e: Event, tag: Tag, k: Key)
    requires a <= b && e in b && e !in a && Counts(e, tag, k)
    ensures Tally(b, tag, k) > Tally(a, tag, k)
  {
    hide Tally, Counts;
    var rest := b[|a|..];
    assert b == a + rest;
    TallyAppend(a, rest, tag, k);
    TallyPositive(rest, e, tag, k);
  }

  ghost predicate QuietEvent(e: Event) {
    !e.Submitted? && !(e.Completed? && e.cause.BySendFailure?) && !(e.Transmitted? && e.message.kind == Request)
  }

  /** Calls other than `Invoke` add no request, no request frame and no send failure. */
  lemma OthersAreQuiet(s: State, a: Action, e: Event)
    requires TablesOk(s) && !a.DoInvoke? && e in Apply(s, a).log && e !in s.log
    ensures QuietEvent(e)
  {
    hide Tally, Apply;
    var k := if e.Submitted? || e.Completed? then e.key
             else if e.Transmitted? then Key(e.to, e.message.id) else Key(0, 0);
    ApplyKeeps(s, a, k);
    var t := Apply(s, a);
    if Counts(e, Starts, k) { NewEventCounts(s.log, t.log, e, Starts, k); }
    if Counts(e, SendFails, k) { NewEventCounts(s.log, t.log, e, SendFails, k); }
    if Counts(e, RequestSends, k) { NewEventCounts(s.log, t.log, e, RequestSends, k); }
  }

  lemma QuietKeepsLocal(s: State, t: State, limit: nat)
    requires IdsUnique(s) && FailuresIncomplete(s, limit)
    requires s.log <= t.log && t.drawn == s.drawn && t.nextId == s.nextId
    requires forall e :: e in t.log && e !in s.log ==> QuietEvent(e)
    ensures IdsUnique(t) && FailuresIncomplete(t, limit)
  {
    hide Frame, FragmentCount;
    forall f, e | f in t.log && e in t.log && f.Completed? && f.cause.BySendFailure? && e.Submitted? && e.key == f.key
      ensures !FullySent(t.log, e.key.peer, Message(Request, e.key.id, e.payload), limit)
    {
      assert f in s.log && e in s.log;
      var m := Message(Request, e.key.id, e.payload);
      assert !FullySent(s.log, e.key.peer, m, limit);
      if FullySent(t.log, e.key.peer, m, limit) { SentEarlier(s.log, t.log, e.key.peer, m, limit); }
    }
  }

  lemma SentEarlier(a: Log, b: Log, to: Addr, m: Message, limit: nat)
    requires FullySent(b, to, m, limit)
    requires forall e :: e in b && e !in a && e.Transmitted? ==> e.message != m
    ensures FullySent(a, to, m, limit)
  {
    hide Frame, FragmentCount;
    forall i | 0 <= i < Count(m, limit) ensures Transmitted(to, Frame(limit, m, i), m, i) in a {
      var x := Transmitted(to, Frame(limit, m, i), m, i);
      assert x in b;
    }
  }

  /** None of the new frames is fragment `i`. */
  ghost predicate Skips(s: State, t: State, i: nat) {
    forall e :: e in t.log && e !in s.log && e.Transmitted? ==> e.index != i
  }

  lemma SkippedNotSent(s: State, t: State, i: nat, to: Addr, m: Message, limit: nat)
    requires Skips(s, t, i) && i < Count(m, limit)
    requires forall e :: e in s.log && e.Transmitted? ==> e.message != m
    ensures !FullySent(t.log, to, m, limit)
  {
    hide Frame, FragmentCount;
    var x := Transmitted(to, Frame(limit, m, i), m, i);
    assert x !in t.log;
  }

  /** What `Invoke` adds to the log: a request, some of its frames, perhaps its failure. */
  ghost predicate CallEvents(s: State, t: State, key: Key, payload: Bytes, limit: nat) {
    var m := Message(Request, key.id, payload);
    && s.log <= t.log
    && (forall e :: e in t.log && e !in s.log && e.Submitted? ==> e.key == key && e.payload == payload)
    && (forall d, e :: d in t.log && e in t.log && d !in s.log && e !in s.log && d.Submitted? && e.Submitted? ==>
         d == e)
    && (forall e :: e in t.log && e !in s.log && e.Transmitted? ==> e.message == m && e.to == key.peer)
    && (forall f :: f in t.log && f !in s.log && f.Completed? ==> f.key == key)
    && ((exists f :: f in t.log && f !in s.log && f.Completed?) ==>
          Count(m, limit) == 0 || exists i :: 0 <= i < Count(m, limit) && Skips(s, t, i))
  }

  lemma CallAdds(s: State, env: Env, peer: Addr, inv: Invocation, now: nat, limit: nat)
    requires s.initialized ==> s.config.maxPayload == limit
    ensures var t := Call(s, env, peer, inv, now).state;
            || t == s || (t == s.(drawn := t.drawn, nextId := t.nextId) && t.drawn == s.drawn + 1
               && t.nextId == NextId(s.nextId))
            || (t.drawn == s.drawn + 1 && t.nextId == NextId(s.nextId) &&
                CallEvents(s, t, Key(peer, DrawId(s.nextId)), RequestBytes(inv), limit))
  {
    hide RequestBytes, Encodable, Frame, FragmentCount, SendPayload;
    if s.initialized && inv.path != [] && |s.pending| < s.config.maxOutstanding
       && Encodable(inv) && |RequestBytes(inv)| <= s.config.maxMessage {
      var key := Key(peer, DrawId(s.nextId));
      var started := Submitted(key, inv, RequestBytes(inv));
      var s2 := Emit(s.(nextId := NextId(s.nextId), drawn := s.drawn + 1), [started])
                .(pending := s.pending + [Pending(key, now)]);
      var m := Message(Request, key.id, RequestBytes(inv));
      var o := SendPayload(s2, env, peer, m);
      var t := Call(s, env, peer, inv, now).state;
      var sent, k := SendEvents(s2, env, peer, m);
      var tail: Log := if o.ok then [] else [Completed(key, SEND_FAILED, BySendFailure)];
      assert t.log == s.log + ([started] + sent + tail);
      CallLog(s, t, started, sent, k, tail, limit);
    }
  }

  lemma CallLog(s: State, t: State, started: Event, sent: Log, k: nat, tail: Log, limit: nat)
    requires started.Submitted? && t.log == s.log + ([started] + sent + tail)
    requires var m := Message(Request, started.key.id, started.payload);
             && (forall e :: e in sent ==>
                  e.Refused? || (e.Transmitted? && e.message == m && e.to == started.key.peer && e.index < k))
             && (tail == [] || (tail == [Completed(started.key, SEND_FAILED, BySendFailure)]
                && (Count(m, limit) == 0 || k < Count(m, limit))))
    ensures CallEvents(s, t, started.key, started.payload, limit)
  {
    hide FragmentCount;
    var m := Message(Request, started.key.id, started.payload);
    forall e | e in t.log && e !in s.log ensures e == started || e in sent || e in tail { }
    if tail != [] && Count(m, limit) > 0 { assert Skips(s, t, k); }
  }

  lemma SendEvents(s: State, env: Env, to: Addr, m: Message) returns (es: Log, k: nat)
    ensures SendPayload(s, env, to, m).state == Emit(s, es)
    ensures var n := FragmentCount(|m.payload|, s.config.maxPayload);
            k <= n && (SendPayload(s, env, to, m).ok <==> n > 0 && k == n)
    ensures forall e :: e in es ==> e.Refused? || (e.Transmitted? && e.message == m && e.to == to && e.index < k)
  {
    hide Frame, FragmentCount;
    var n := FragmentCount(|m.payload|, s.config.maxPayload);
    k := Passed(env.accepts, |s.log|, n);
    var sends := Sends(s.config.maxPayload, to, m, k);
    es := sends + if k < n then [Refused(to, m, k)] else [];
    forall e | e in es ensures e.Refused? || (e.Transmitted? && e.message == m && e.to == to && e.index < k) {
      if e in sends { var i :| 0 <= i < |sends| && sends[i] == e; }
    }
  }

  lemma CallKeepsLocal(s: State, t: State, key: Key, payload: Bytes, limit: nat)
    requires Sound(s, limit) && IdsUnique(s) && FailuresIncomplete(s, limit)
    requires t.drawn == s.drawn + 1 <= MAXIMUM_IDS && t.nextId == NextId(s.nextId)
    requires key.id == DrawId(s.nextId) && CallEvents(s, t, key, payload, limit)
    ensures IdsUnique(t) && FailuresIncomplete(t, limit)
  {
    hide Frame, FragmentCount, Encodable, RequestBytes, ResponseBytes, DecodeRequest, DecodeResponse, TablesJustified;
    assert key.id as int == s.drawn + 1;
    forall x | x in s.log && x.Transmitted? && x.message.kind == Request ensures x.message.id != key.id {
      assert Justified(x, s.log, limit);
      var inv :| Submitted(Key(x.to, x.message.id), inv, x.message.payload) in s.log;
    }
    forall f, e | f in t.log && e in t.log && f.Completed? && f.cause.BySendFailure? && e.Submitted? && e.key == f.key
      ensures !FullySent(t.log, e.key.peer, Message(Request, e.key.id, e.payload), limit)
    {
      FailureStays(s, t, key, payload, f, e, limit);
    }
  }

  lemma FailureStays(s: State, t: State, key: Key, payload: Bytes, f: Event, e: Event, limit: nat)
    requires AllJustified(s.log, limit) && IdsUnique(s) && FailuresIncomplete(s, limit)
             && CallEvents(s, t, key, payload, limit)
    requires key.id as int == s.drawn + 1
    requires forall x :: x in s.log && x.Transmitted? && x.message.kind == Request ==> x.message.id != key.id
    requires f in t.log && e in t.log && f.Completed? && f.cause.BySendFailure? && e.Submitted? && e.key == f.key
    ensures !FullySent(t.log, e.key.peer, Message(Request, e.key.id, e.payload), limit)
  {
    hide Frame, FragmentCount, Encodable, RequestBytes, ResponseBytes, DecodeRequest, DecodeResponse;
    var m := Message(Request, e.key.id, e.payload);
    if f in s.log {
      assert Justified(f, s.log, limit);
      var inv, p :| Submitted(f.key, inv, p) in s.log;
      assert f.key.id as int <= s.drawn;
      assert e in s.log;
      assert !FullySent(s.log, e.key.peer, m, limit);
      if FullySent(t.log, e.key.peer, m, limit) { SentEarlier(s.log, t.log, e.key.peer, m, limit); }
    } else {
      assert f.key == key && e !in s.log;
      if Count(m, limit) > 0 {
        var i :| 0 <= i < Count(m, limit) && Skips(s, t, i);
        SkippedNotSent(s, t, i, e.key.peer, m, limit);
      }
    }
  }

  /** Every call keeps what one endpoint guarantees by itself. */
  lemma ApplyLocal(s: State, a: Action, limit: nat)
    requires LocalOk(s, limit) && (a.Initialize? ==> Compatible(a.config, limit)) && Apply(s, a).drawn <= MAXIMUM_IDS
    ensures LocalOk(Apply(s, a), limit) && s.log <= Apply(s, a).log
  {
    hide Sound, IdsUnique, FailuresIncomplete, Call, Receive, Complete, Sweep, Stop, Tally, CallEvents, RequestBytes;
    var t := Apply(s, a);
    ApplyKeeps(s, a, Key(0, 0));
    AccountsKept(s, a);
    ApplySound(s, a, limit);
    if a.DoInvoke? {
      SoundConfig(s, limit);
      CallAdds(s, a.env, a.peer, a.invocation, a.now, limit);
      if t.log == s.log && t.drawn == s.drawn + 1 {
        DrawKeepsLocal(s, t, limit);
      } else if t != s {
        CallKeepsLocal(s, t, Key(a.peer, DrawId(s.nextId)), RequestBytes(a.invocation), limit);
      }
    } else {
      forall e | e in t.log && e !in s.log ensures QuietEvent(e) { OthersAreQuiet(s, a, e); }
      QuietKeepsLocal(s, t, limit);
    }
  }

  lemma AccountsKept(s: State, a: Action)
    requires TablesOk(s) && Accounted(s)
    ensures Accounted(Apply(s, a))
  {
    hide Apply, Tally;
    forall k ensures Balanced(Apply(s, a), k) && Slack(Apply(s, a), k) >= 0 {
      assert Balanced(s, k);
      ApplyKeeps(s, a, k);
    }
  }

  lemma SoundConfig(s: State, limit: nat)
    requires Sound(s, limit)
    ensures s.initialized ==> s.config.maxPayload == limit && s.config.maxMessage < SMALLEST_OVERFLOW
  {
  }

  lemma DrawKeepsLocal(s: State, t: State, limit: nat)
    requires IdsUnique(s) && FailuresIncomplete(s, limit) && t.log == s.log
    requires t.drawn == s.drawn + 1 <= MAXIMUM_IDS && t.nextId == NextId(s.nextId)
    ensures IdsUnique(t) && FailuresIncomplete(t, limit)
  {
  }

  // ---------------------------------------------------------------- the network

  type Nodes = map<Addr, State>

  datatype Step = Step(node: Addr, action: Action)

  /** `from` has transmitted exactly these bytes to `to`. */
  ghost predicate OnAir(log: Log, to: Addr, data: Bytes) { exists m, i :: Transmitted(to, data, m, i) in log }

  /**
   * A call can happen at a node at any time. What is received has been transmitted to the
   * node by the stated peer; endpoints use one payload limit, and message limits under
   * which no element count overflows; no node draws more than 2^64 - 1 identifiers. That the
   * node's tables are in shape is no restriction: `RunOk` proves it of every reachable node.
   */
  ghost predicate Enabled(g: Nodes, step: Step, limit: nat) {
    && step.node in g && TablesOk(g[step.node])
    && (step.action.Initialize? ==> Compatible(step.action.config, limit))
    && (step.action.DoReceive? ==> step.action.peer in g && OnAir(g[step.action.peer].log, step.node, step.action.data))
    && Apply(g[step.node], step.action).drawn <= MAXIMUM_IDS
  }

  // ---------------------------------------------------------------- what is true of messages

  /** All answers `log` holds for `k` have the same encoding. */
  ghost predicate OnlyAnswer(log: Log, k: Key, p: Bytes) {
    forall r :: Stored(k, r) in log ==> ResponseBytes(r) == p
  }

  ghost predicate Answers(log: Log, k: Key) { exists r :: Stored(k, r) in log }

  /** A slot at node `n` holds parts of what its peer, whose log is `log`, really sent. */
  ghost predicate SlotTrue(log: Log, n: Addr, x: Slot, limit: nat)
    requires limit > HEADER_SIZE
  {
    var k := Key(n, x.key.id);
    match x.kind
    case Request => exists inv, p :: Submitted(k, inv, p) in log && RequestPart(log, n, x, p, limit)
    case Response => Answers(log, k) && forall p: Bytes :: OnlyAnswer(log, k, p) ==>
      PartOf(x, x.key, Message(Response, x.key.id, p), limit, x.received)
  }

  ghost predicate RequestPart(log: Log, n: Addr, x: Slot, p: Bytes, limit: nat)
    requires limit > HEADER_SIZE
  {
    var m := Message(Request, x.key.id, p);
    && PartOf(x, x.key, m, limit, x.received)
    && forall i :: i in x.received ==> i < Count(m, limit) && Transmitted(n, Frame(limit, m, i), m, i) in log
  }

  /** A message put together at node `n` is one its peer really sent. */
  ghost predicate ArrivalTrue(log: Log, n: Addr, key: Key, kind: MessageType, payload: Bytes, limit: nat) {
    var k := Key(n, key.id);
    match kind
    case Request => (exists inv :: Submitted(k, inv, payload) in log)
                    && FullySent(log, n, Message(Request, key.id, payload), limit)
    case Response => Answers(log, k) && forall p: Bytes :: OnlyAnswer(log, k, p) ==> payload == p
  }

  lemma SlotTrueLater(a: Log, b: Log, n: Addr, x: Slot, limit: nat)
    requires limit > HEADER_SIZE && a <= b && SlotTrue(a, n, x, limit)
    ensures SlotTrue(b, n, x, limit)
  {
    hide PartOf, Frame, FragmentCount, ResponseBytes;
    assert forall e :: e in a ==> e in b;
    var k := Key(n, x.key.id);
    if x.kind == Request {
      var inv, p :| Submitted(k, inv, p) in a && RequestPart(a, n, x, p, limit);
      assert Submitted(k, inv, p) in b && RequestPart(b, n, x, p, limit);
    } else {
      forall p: Bytes | OnlyAnswer(b, k, p)
        ensures PartOf(x, x.key, Message(Response, x.key.id, p), limit, x.received) {
        assert OnlyAnswer(a, k, p);
      }
    }
  }

  lemma ArrivalTrueLater(a: Log, b: Log, n: Addr, key: Key, kind: MessageType, payload: Bytes, limit: nat)
    requires a <= b && ArrivalTrue(a, n, key, kind, payload, limit)
    ensures ArrivalTrue(b, n, key, kind, payload, limit)
  {
    hide Frame, FragmentCount, ResponseBytes;
    assert forall e :: e in a ==> e in b;
    var k := Key(n, key.id);
    if kind == Response {
      forall p: Bytes | OnlyAnswer(b, k, p) ensures payload == p { assert OnlyAnswer(a, k, p); }
    }
  }

  // ---------------------------------------------------------------- receiving

  /** What `peer`, with log `log`, may truthfully have on the air for `n`. */
  ghost predicate Genuine(log: Log, n: Addr, m: Message, i: nat, limit: nat) {
    && i < Count(m, limit) && Transmitted(n, Frame(limit, m, i), m, i) in log && Origin(log, n, m)
    && (forall d, e :: d in log && e in log && d.Submitted? && e.Submitted? && d.key.id == e.key.id ==> d == e)
  }

  /** Existing slots under a genuine request's key belong to the same request. */
  lemma RequestParts(slots: seq<Slot>, log: Log, n: Addr, peer: Addr, m: Message, i: nat, limit: nat)
    requires limit > HEADER_SIZE && Genuine(log, n, m, i, limit) && m.kind == Request
    requires forall x :: x in slots && x.key.peer == peer ==> SlotTrue(log, n, x, limit)
    ensures OnlyPartsOf(slots, Key(peer, m.id), m, limit)
    ensures forall j :: j in SeenIn(slots, Key(peer, m.id), Request) ==>
              j < Count(m, limit) && Transmitted(n, Frame(limit, m, j), m, j) in log
  {
    hide PartOf, Frame, FragmentCount;
    var key := Key(peer, m.id);
    var own :| Submitted(Key(n, m.id), own, m.payload) in log;
    forall x | x in slots && x.key == key && x.kind == Request ensures RequestPart(log, n, x, m.payload, limit) {
      assert SlotTrue(log, n, x, limit);
      var inv, p :| Submitted(Key(n, x.key.id), inv, p) in log && RequestPart(log, n, x, p, limit);
      assert Submitted(Key(n, x.key.id), inv, p) == Submitted(Key(n, m.id), own, m.payload);
    }
    var at := First(slots, SlotIs(key, Request));
    if at < |slots| {
      assert SlotIs(key, Request)(slots[at]);
      assert slots[at] in slots;
    }
  }

  lemma ResponseParts(slots: seq<Slot>, log: Log, n: Addr, peer: Addr, m: Message, limit: nat)
    requires limit > HEADER_SIZE && m.kind == Response && OnlyAnswer(log, Key(n, m.id), m.payload)
    requires forall x :: x in slots && x.key.peer == peer ==> SlotTrue(log, n, x, limit)
    ensures OnlyPartsOf(slots, Key(peer, m.id), m, limit)
  {
    hide PartOf, Frame, FragmentCount, ResponseBytes;
    var key := Key(peer, m.id);
    forall x | x in slots && x.key == key && x.kind == Response ensures PartOf(x, key, m, limit, x.received) {
      assert SlotTrue(log, n, x, limit);
      assert PartOf(x, x.key, Message(Response, x.key.id, m.payload), limit, x.received);
    }
  }

  /** A genuine fragment leaves only true slots, and completes only a true message. */
  lemma GenuineReassembly(slots: seq<Slot>, c: Config, log: Log, n: Addr, peer: Addr, m: Message, i: nat, now: nat)
    requires UsableLimit(c.maxPayload) && SlotsOk(slots) && Genuine(log, n, m, i, c.maxPayload)
             && Count(m, c.maxPayload) > 1
    requires forall x :: x in slots && x.key.peer == peer ==> SlotTrue(log, n, x, c.maxPayload)
    ensures var r := Reassemble(slots, c, Key(peer, m.id), HeaderOf(m, c.maxPayload, i),
                                Chunk(m.payload, Capacity(c.maxPayload), i), now);
            && (!r.Dropped? ==> forall x :: x in r.slots && x !in slots ==>
                 x.key == Key(peer, m.id) && SlotTrue(log, n, x, c.maxPayload))
            && (r.Whole? ==> ArrivalTrue(log, n, Key(peer, m.id), m.kind, r.payload, c.maxPayload))
  {
    hide PartOf, Frame, FragmentCount, ResponseBytes, Reassemble, Chunk, AllIndices;
    var limit, key, k := c.maxPayload, Key(peer, m.id), Key(n, m.id);
    CountIsChunkCount(|m.payload|, limit);
    var h, data := HeaderOf(m, limit, i), Chunk(m.payload, Capacity(limit), i);
    var r := Reassemble(slots, c, key, h, data, now);
    ReassembleShape(slots, c, key, h, data, now);
    if m.kind == Request {
      RequestParts(slots, log, n, peer, m, i, limit);
      ReassemblePart(slots, c, key, m, i, now);
      var own :| Submitted(k, own, m.payload) in log;
      if !r.Dropped? {
        forall x | x in r.slots && x !in slots ensures SlotTrue(log, n, x, limit) {
          assert RequestPart(log, n, x, m.payload, limit);
        }
      }
      if r.Whole? {
        forall j | 0 <= j < Count(m, limit) ensures Transmitted(n, Frame(limit, m, j), m, j) in log {
          assert j in AllIndices(Count(m, limit));
        }
      }
    } else {
      assert Answers(log, k);
      if OnlyAnswer(log, k, m.payload) {
        ResponseParts(slots, log, n, peer, m, limit);
        ReassemblePart(slots, c, key, m, i, now);
      }
      assert forall p: Bytes :: OnlyAnswer(log, k, p) ==> p == m.payload;
    }
  }

  lemma DispatchArrival(s: State, env: Env, key: Key, kind: MessageType, payload: Bytes, now: nat, e: Event)
    requires TablesOk(s) && s.initialized
    requires e.Assembled? && e in Dispatch(s, env, key, kind, payload, now).state.log && e !in s.log
    ensures e == Assembled(key, kind, payload)
  {
    hide HandleRequest, HandleResponse, Tally;
    var s1 := Emit(s, [Assembled(key, kind, payload)]);
    EmitOne(s, Assembled(key, kind, payload), e.key);
    var t := Dispatch(s, env, key, kind, payload, now).state;
    if kind == Request {
      HandleRequestKeeps(s1, env, key, payload, now, e.key);
    } else {
      HandleResponseKeeps(s1, key, payload, e.key);
    }
    if e !in s1.log { NewEventCounts(s1.log, t.log, e, Assembles, e.key); }
  }

  ghost predicate SlotsTrueFrom(s: State, peer: Addr, log: Log, n: Addr, limit: nat)
    requires limit > HEADER_SIZE
  {
    forall x :: x in s.slots && x.key.peer == peer ==> SlotTrue(log, n, x, limit)
  }

  /** What one delivery adds at node `n` is true of the peer's log. */
  ghost predicate AddsTruth(s: State, t: State, peer: Addr, log: Log, n: Addr, limit: nat)
    requires limit > HEADER_SIZE
  {
    && (forall x :: x in t.slots && x !in s.slots ==> x.key.peer == peer && SlotTrue(log, n, x, limit))
    && (forall e :: e in t.log && e !in s.log && e.Assembled? ==>
          e.key.peer == peer && ArrivalTrue(log, n, e.key, e.kind, e.payload, limit))
  }

  lemma DispatchTrue(s: State, env: Env, key: Key, kind: MessageType, payload: Bytes, now: nat, log: Log, n: Addr,
                     limit: nat)
    requires TablesOk(s) && s.initialized && limit > HEADER_SIZE && ArrivalTrue(log, n, key, kind, payload, limit)
    ensures var t := Dispatch(s, env, key, kind, payload, now).state;
            t.slots == s.slots && AddsTruth(s, t, key.peer, log, n, limit)
  {
    hide Dispatch, ArrivalTrue, SlotTrue;
    var t := Dispatch(s, env, key, kind, payload, now).state;
    DispatchFrame(s, env, key, kind, payload, now);
    forall e | e in t.log && e !in s.log && e.Assembled?
      ensures e.key.peer == key.peer && ArrivalTrue(log, n, e.key, e.kind, e.payload, limit)
    {
      DispatchArrival(s, env, key, kind, payload, now, e);
    }
  }

  lemma ReceiveTrue(s: State, env: Env, peer: Addr, data: Bytes, now: nat, log: Log, n: Addr, limit: nat, m: Message,
                    i: nat)
    requires UsableLimit(limit) && TablesOk(s) && (s.initialized ==> s.config.maxPayload == limit)
    requires Genuine(log, n, m, i, limit) && data == Frame(limit, m, i) && SlotsTrueFrom(s, peer, log, n, limit)
    ensures AddsTruth(s, Receive(s, env, peer, data, now).state, peer, log, n, limit)
  {
    hide Dispatch, Reassemble, ArrivalTrue, SlotTrue, ParseFrame, Frame, FragmentCount, Chunk;
    if s.initialized {
      FrameParses(limit, m, i);
      var key := Key(peer, m.id);
      var h := HeaderOf(m, limit, i);
      CountIsChunkCount(|m.payload|, limit);
      var bytes := Chunk(m.payload, Capacity(limit), i);
      if h.total <= s.config.maxMessage {
        if Count(m, limit) == 1 {
          SingleTrue(log, n, peer, m, i, limit);
          DispatchTrue(s, env, key, m.kind, bytes, now, log, n, limit);
        } else {
          GenuineReassembly(s.slots, s.config, log, n, peer, m, i, now);
          ReassembleKeeps(s.slots, s.config, key, h, bytes, now);
          var r := Reassemble(s.slots, s.config, key, h, bytes, now);
          if r.Whole? { DispatchTrue(s.(slots := r.slots), env, key, m.kind, r.payload, now, log, n, limit); }
        }
      }
    }
  }

  /** A message of one fragment is that fragment. */
  lemma SingleTrue(log: Log, n: Addr, peer: Addr, m: Message, i: nat, limit: nat)
    requires UsableLimit(limit) && Genuine(log, n, m, i, limit) && Count(m, limit) == 1
    ensures i < ChunkCount(|m.payload|, Capacity(limit)) && i == 0
    ensures Chunk(m.payload, Capacity(limit), i) == m.payload
    ensures ArrivalTrue(log, n, Key(peer, m.id), m.kind, m.payload, limit)
  {
    hide Frame, ResponseBytes;
    ChunkBounds(|m.payload|, Capacity(limit), i);
    var k := Key(n, m.id);
    if m.kind == Response {
      assert Answers(log, k);
      assert forall p: Bytes :: OnlyAnswer(log, k, p) ==> m.payload == p;
    }
  }

  // ---------------------------------------------------------------- the whole network

  ghost predicate GlobalOk(g: Nodes, limit: nat)
    requires limit > HEADER_SIZE
  {
    && (forall n :: n in g ==> LocalOk(g[n], limit))
    && (forall n, x :: n in g && x in g[n].slots ==> x.key.peer in g && SlotTrue(g[x.key.peer].log, n, x, limit))
    && (forall n, e :: n in g && e in g[n].log && e.Assembled? ==>
          e.key.peer in g && ArrivalTrue(g[e.key.peer].log, n, e.key, e.kind, e.payload, limit))
  }

  function Next(g: Nodes, step: Step): Nodes
    requires step.node in g && (g[step.node].initialized ==> ValidConfig(g[step.node].config))
  {
    g[step.node := Apply(g[step.node], step.action)]
  }

  lemma StepTrue(g: Nodes, step: Step, limit: nat)
    requires UsableLimit(limit) && GlobalOk(g, limit) && Enabled(g, step, limit)
    ensures var s, t := g[step.node], Apply(g[step.node], step.action);
            && (forall x :: x in t.slots && x !in s.slots ==>
                 x.key.peer in g && SlotTrue(g[x.key.peer].log, step.node, x, limit))
            && (forall e :: e in t.log && e !in s.log && e.Assembled? ==>
                  e.key.peer in g && ArrivalTrue(g[e.key.peer].log, step.node, e.key, e.kind, e.payload, limit))
  {
    hide Receive, Call, Complete, Sweep, SlotTrue, ArrivalTrue, Tally, Frame, Sound, IdsUnique, FailuresIncomplete;
    var n, a := step.node, step.action;
    var s, t := g[n], Apply(g[n], a);
    assert LocalOk(s, limit);
    SoundConfig(s, limit);
    if a.DoReceive? {
      var log := g[a.peer].log;
      assert LocalOk(g[a.peer], limit);
      var m, i :| Transmitted(n, a.data, m, i) in log;
      AirIsGenuine(g[a.peer], n, a.data, m, i, limit);
      ReceiveTrue(s, a.env, a.peer, a.data, a.now, log, n, limit, m, i);
    } else {
      if !a.Initialize? && !a.Shutdown? {
        ConfigKept(s, a);
        if a.DoUpdate? && !s.initialized { SweepIdle(s, a.env, a.now); }
      } else {
        StoppedIsEmpty(s);
      }
      forall e | e in t.log && e !in s.log ensures !e.Assembled? {
        NoNewArrival(s, a, e);
      }
    }
  }

  lemma NoNewArrival(s: State, a: Action, e: Event)
    requires TablesOk(s) && !a.DoReceive? && e in Apply(s, a).log && e !in s.log
    ensures !e.Assembled?
  {
    hide Apply, Tally;
    if e.Assembled? {
      ApplyKeeps(s, a, e.key);
      NewEventCounts(s.log, Apply(s, a).log, e, Assembles, e.key);
    }
  }

  lemma AirIsGenuine(s: State, n: Addr, data: Bytes, m: Message, i: nat, limit: nat)
    requires Sound(s, limit) && IdsUnique(s) && Transmitted(n, data, m, i) in s.log
    ensures Genuine(s.log, n, m, i, limit) && data == Frame(limit, m, i)
  {
    hide Frame, FragmentCount, TablesJustified;
    assert Justified(Transmitted(n, data, m, i), s.log, limit);
  }

  /** Every step of every node keeps the network truthful. */
  lemma NextOk(g: Nodes, step: Step, limit: nat)
    requires UsableLimit(limit) && GlobalOk(g, limit) && Enabled(g, step, limit)
    ensures GlobalOk(Next(g, step), limit)
  {
    hide LocalOk, SlotTrue, ArrivalTrue, Apply;
    var h, b := Next(g, step), step.node;
    ApplyLocal(g[b], step.action, limit);
    StepTrue(g, step, limit);
    assert forall n :: n in g ==> n in h && g[n].log <= h[n].log;
    forall n, x | n in h && x in h[n].slots
      ensures x.key.peer in h && SlotTrue(h[x.key.peer].log, n, x, limit)
    {
      assert x.key.peer in g && SlotTrue(g[x.key.peer].log, n, x, limit);
      SlotTrueLater(g[x.key.peer].log, h[x.key.peer].log, n, x, limit);
    }
    forall n, e | n in h && e in h[n].log && e.Assembled?
      ensures e.key.peer in h && ArrivalTrue(h[e.key.peer].log, n, e.key, e.kind, e.payload, limit)
    {
      assert e.key.peer in g && ArrivalTrue(g[e.key.peer].log, n, e.key, e.kind, e.payload, limit);
      ArrivalTrueLater(g[e.key.peer].log, h[e.key.peer].log, n, e.key, e.kind, e.payload, limit);
    }
  }

  // ---------------------------------------------------------------- runs

  /** All nodes newly constructed. */
  ghost predicate Initial(g: Nodes) { forall n :: n in g ==> exists c :: g[n] == Fresh(c) }

  /** `gs` is a run: each state follows from the one before by an enabled step. */
  ghost predicate IsRun(gs: seq<Nodes>, steps: seq<Step>, limit: nat) {
    && |gs| == |steps| + 1 && Initial(gs[0])
    && forall i :: 0 <= i < |steps| ==> Enabled(gs[i], steps[i], limit) && gs[i + 1] == Next(gs[i], steps[i])
  }

  lemma FreshLocal(c: Config, limit: nat)
    ensures LocalOk(Fresh(c), limit)
  {
    FreshOk(c);
    forall k ensures Balanced(Fresh(c), k) && Slack(Fresh(c), k) >= 0 { }
  }

  lemma {:induction false} RunOk(gs: seq<Nodes>, steps: seq<Step>, limit: nat, i: nat)
    requires UsableLimit(limit) && IsRun(gs, steps, limit) && i < |gs|
    ensures GlobalOk(gs[i], limit)
  {
    hide LocalOk, SlotTrue, ArrivalTrue, Enabled, Next;
    if i == 0 {
      forall n | n in gs[0] ensures LocalOk(gs[0][n], limit) && gs[0][n].slots == [] && gs[0][n].log == [] {
        var c :| gs[0][n] == Fresh(c);
        FreshLocal(c, limit);
      }
    } else {
      RunOk(gs, steps, limit, i - 1);
      NextOk(gs[i - 1], steps[i - 1], limit);
    }
  }

  // ---------------------------------------------------------------- the theorems

  /** A request put together anywhere decodes to the normalised invocation its sender made. */
  lemma RequestArrivesIntact(g: Nodes, limit: nat, b: Addr, key: Key, payload: Bytes) returns (inv: Invocation)
    requires limit > HEADER_SIZE && GlobalOk(g, limit) && b in g && Assembled(key, Request, payload) in g[b].log
    ensures key.peer in g && Submitted(Key(b, key.id), inv, payload) in g[key.peer].log
    ensures DecodeRequest(payload) == Some(Normalise(inv))
    ensures FullySent(g[key.peer].log, b, Message(Request, key.id, payload), limit)
  {
    hide SlotTrue, DecodeRequest, Normalise, RequestBytes, Encodable, Frame, FragmentCount, IdsUnique,
         FailuresIncomplete, Accounted, TablesOk;
    var e := Assembled(key, Request, payload);
    assert ArrivalTrue(g[e.key.peer].log, b, e.key, e.kind, e.payload, limit);
    var log := g[key.peer].log;
    inv :| Submitted(Key(b, key.id), inv, payload) in log;
    assert LocalOk(g[key.peer], limit);
    assert Justified(Submitted(Key(b, key.id), inv, payload), log, limit);
    ShortRequestsCountsFit(inv);
    RequestRoundTrip(inv);
  }

  /** What the caller of `inv` may be told: B's answer to exactly that invocation, or B's refusal. */
  ghost predicate AnswerTo(log: Log, key: Key, inv: Invocation, r: CommandResult) {
    Answered(Context(key, Normalise(inv)), r) in log || r in {EXHAUSTED, NOT_HANDED}
  }

  /**
   * End to end. In every run, when A's request `id` to B completes with a response, and all
   * answers B has stored for it encode alike, then A had submitted an invocation under that
   * identifier, B stored that very result, and B produced it for exactly the
   * text-normalised invocation (or refused it for lack of capacity).
   */
  lemma ResponseIsBsAnswer(g: Nodes, limit: nat, a: Addr, b: Addr, id: U64, r: CommandResult, p: Bytes)
    requires limit > HEADER_SIZE && GlobalOk(g, limit) && a in g && b in g
    requires Completed(Key(b, id), r, ByResponse) in g[a].log && OnlyAnswer(g[b].log, Key(a, id), p)
    ensures Stored(Key(a, id), r) in g[b].log
    ensures exists inv, q :: Submitted(Key(b, id), inv, q) in g[a].log && AnswerTo(g[b].log, Key(a, id), inv, r)
  {
    hide SlotTrue, DecodeRequest, DecodeResponse, Normalise, RequestBytes, ResponseBytes, Frame, FragmentCount,
         IdsUnique, FailuresIncomplete, Accounted, TablesOk, TablesJustified;
    var alog, blog := g[a].log, g[b].log;
    assert LocalOk(g[a], limit) && LocalOk(g[b], limit);
    assert Justified(Completed(Key(b, id), r, ByResponse), alog, limit);
    var payload :| Assembled(Key(b, id), Response, payload) in alog && DecodeResponse(payload) == Some(r);
    var e := Assembled(Key(b, id), Response, payload);
    assert ArrivalTrue(g[e.key.peer].log, a, e.key, e.kind, e.payload, limit);
    var stored :| Stored(Key(a, id), stored) in blog;
    assert payload == p == ResponseBytes(stored);
    assert Justified(Stored(Key(a, id), stored), blog, limit);
    ResponseReadsBack(stored);
    assert Produced(blog, Key(a, id), r);
    ProducedForCaller(g, limit, a, b, id, r);
  }

  lemma ProducedForCaller(g: Nodes, limit: nat, a: Addr, b: Addr, id: U64, r: CommandResult)
    requires limit > HEADER_SIZE && GlobalOk(g, limit) && a in g && b in g && Produced(g[b].log, Key(a, id), r)
    ensures exists inv, q :: Submitted(Key(b, id), inv, q) in g[a].log && AnswerTo(g[b].log, Key(a, id), inv, r)
  {
    hide SlotTrue, ArrivalTrue, DecodeRequest, DecodeResponse, Normalise, RequestBytes, ResponseBytes, Frame,
         FragmentCount,
         IdsUnique, FailuresIncomplete, Accounted, TablesOk, TablesJustified;
    var blog := g[b].log;
    assert LocalOk(g[b], limit);
    if Reported(blog, Key(a, id), r) {
      var context :| Answered(context, r) in blog && context.key == Key(a, id);
      assert Justified(Answered(context, r), blog, limit);
      var q :| Assembled(context.key, Request, q) in blog && DecodeRequest(q) == Some(context.invocation);
      var inv := RequestArrivesIntact(g, limit, b, context.key, q);
      assert context == Context(Key(a, id), Normalise(inv));
      assert AnswerTo(blog, Key(a, id), inv, r);
    } else if r == MALFORMED && Undecodable(blog, Key(a, id)) {
      var q :| Assembled(Key(a, id), Request, q) in blog && DecodeRequest(q).None?;
      var inv := RequestArrivesIntact(g, limit, b, Key(a, id), q);
    } else {
      var q :| Assembled(Key(a, id), Request, q) in blog;
      var inv := RequestArrivesIntact(g, limit, b, Key(a, id), q);
      assert AnswerTo(blog, Key(a, id), inv, r);
    }
  }

  lemma {:induction false} TallyTwice(log: Log, d: Event, e: Event, tag: Tag, k: Key)
    requires d in log && e in log && d != e && Counts(d, tag, k) && Counts(e, tag, k)
    ensures Tally(log, tag, k) >= 2
  {
    var n := |log| - 1;
    var front := log[..n];
    assert log == front + [log[n]];
    if log[n] == d {
      TallyPositive(front, e, tag, k);
    } else if log[n] == e {
      TallyPositive(front, d, tag, k);
    } else {
      TallyTwice(front, d, e, tag, k);
    }
  }

  /** A receiver that admitted a request no more than once has stored one answer to it. */
  lemma RememberedMeansOnlyAnswer(s: State, k: Key, r: CommandResult)
    requires TablesOk(s) && Accounted(s) && Tally(s.log, Admits, k) <= 1 && Stored(k, r) in s.log
    ensures OnlyAnswer(s.log, k, ResponseBytes(r))
  {
    hide Tally, ResponseBytes, TablesOk;
    assert Balanced(s, k) && Slack(s, k) >= 0;
    forall q | Stored(k, q) in s.log ensures q == r {
      if q != r { TallyTwice(s.log, Stored(k, q), Stored(k, r), Replies, k); }
    }
  }

  /**
   * The same for a receiver that has not admitted the request a second time, which it can
   * only do after losing track of it (`AtMostOnceExecution`).
   */
  lemma ResponseIsGenuine(gs: seq<Nodes>, steps: seq<Step>, limit: nat, i: nat, a: Addr, b: Addr, id: U64,
                          r: CommandResult)
    requires UsableLimit(limit) && IsRun(gs, steps, limit) && i < |gs| && a in gs[i] && b in gs[i]
    requires Completed(Key(b, id), r, ByResponse) in gs[i][a].log
    requires Tally(gs[i][b].log, Admits, Key(a, id)) <= 1
    ensures Stored(Key(a, id), r) in gs[i][b].log
    ensures exists inv, q :: Submitted(Key(b, id), inv, q) in gs[i][a].log && AnswerTo(gs[i][b].log, Key(a, id), inv, r)
  {
    hide SlotTrue, IsRun, DecodeResponse, ResponseBytes, Sound, IdsUnique, FailuresIncomplete, Tally;
    RunOk(gs, steps, limit, i);
    var g := gs[i];
    assert LocalOk(g[a], limit) && LocalOk(g[b], limit);
    var payload := ReplyArrived(g[a], b, id, r, limit);
    var e := Assembled(Key(b, id), Response, payload);
    assert ArrivalTrue(g[e.key.peer].log, a, e.key, e.kind, e.payload, limit);
    var stored :| Stored(Key(a, id), stored) in g[b].log;
    RememberedMeansOnlyAnswer(g[b], Key(a, id), stored);
    ResponseIsBsAnswer(g, limit, a, b, id, r, ResponseBytes(stored));
  }

  lemma ReplyArrived(s: State, b: Addr, id: U64, r: CommandResult, limit: nat) returns (payload: Bytes)
    requires Sound(s, limit) && Completed(Key(b, id), r, ByResponse) in s.log
    ensures Assembled(Key(b, id), Response, payload) in s.log && DecodeResponse(payload) == Some(r)
  {
    hide DecodeResponse, TablesJustified;
    assert Justified(Completed(Key(b, id), r, ByResponse), s.log, limit);
    payload :| Assembled(Key(b, id), Response, payload) in s.log && DecodeResponse(payload) == Some(r);
  }

  /** The callbacks, and the admission before them, that mean B has acted on a request. */
  predicate ActsOn(e: Event, key: Key) {
    (e.Admitted? && e.key == key)
      || ((e.PolicyAsked? || e.Handed? || e.Invoked? || e.Answered?) && e.context.key == key)
  }

  /**
   * When sending a request failed, so that `Invoke` returned false, B never acts on it: no
   * run lets its policy, handler or registry see it, and it is not even admitted.
   */
  lemma FailedInvokeNeverExecutes(gs: seq<Nodes>, steps: seq<Step>, limit: nat, i: nat, a: Addr, b: Addr, id: U64,
                                  r: CommandResult, e: Event)
    requires UsableLimit(limit) && IsRun(gs, steps, limit) && i < |gs| && a in gs[i] && b in gs[i]
    requires Completed(Key(b, id), r, BySendFailure) in gs[i][a].log
    requires e in gs[i][b].log
    ensures !ActsOn(e, Key(a, id))
  {
    hide SlotTrue, ArrivalTrue, IsRun, DecodeRequest, FullySent, Sound, FailuresIncomplete, IdsUnique, TablesOk,
         Normalise, Accounted, ActsOn;
    RunOk(gs, steps, limit, i);
    var g := gs[i];
    assert LocalOk(g[a], limit) && LocalOk(g[b], limit);
    if ActsOn(e, Key(a, id)) {
      var q := ActedMeansReceived(g[b], e, Key(a, id), limit);
      var inv := RequestArrivesIntact(g, limit, b, Key(a, id), q);
      FailureContradicts(g[a], b, id, r, inv, q, limit);
    }
  }

  lemma ActedMeansReceived(s: State, e: Event, key: Key, limit: nat) returns (q: Bytes)
    requires Sound(s, limit) && e in s.log && ActsOn(e, key)
    ensures Assembled(key, Request, q) in s.log
  {
    hide DecodeRequest, TablesJustified, Encodable, RequestBytes, Frame, FragmentCount, Produced, Origin, FitsText;
    assert Justified(e, s.log, limit);
    q :| Assembled(key, Request, q) in s.log;
  }

  lemma FailureContradicts(s: State, b: Addr, id: U64, r: CommandResult, inv: Invocation, q: Bytes, limit: nat)
    requires FailuresIncomplete(s, limit)
    requires Completed(Key(b, id), r, BySendFailure) in s.log && Submitted(Key(b, id), inv, q) in s.log
    ensures !FullySent(s.log, b, Message(Request, id, q), limit)
  {
    var f, e := Completed(Key(b, id), r, BySendFailure), Submitted(Key(b, id), inv, q);
    assert f in s.log && e in s.log && f.cause.BySendFailure? && e.key == f.key;
  }
}
