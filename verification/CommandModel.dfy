/**
 * The Command endpoint as a state machine on values
 * (src/ESPressio_ESPNowCommandEndpoint.hpp). Each public call is a function from state to
 * state; everything a callback could observe, and every answer the endpoint stops
 * remembering, is appended to `log`. `CommandEndpoint` proves the source's loops against
 * these functions; the run-level theorems are about them.
 */
module CommandModel {
  import opened Bytes
  import opened Chunks
  import opened CommandCodec
  import opened CommandFragments
  import opened Sending
  import opened Tables

  /** A request is known to its receiver by sender and identifier. */
  datatype Key = Key(peer: Addr, id: U64)

  datatype Config = Config(
    maxPayload: nat, maxMessage: nat, maxOutstanding: nat, maxReassemblies: nat, maxDuplicates: nat,
    maxInbound: nat, requestTimeout: nat, inboundTimeout: nat, reassemblyTimeout: nat, duplicateLifetime: nat)

  datatype Context = Context(key: Key, invocation: TextInvocation)

  datatype Pending = Pending(key: Key, started: nat)
  datatype Inbound = Inbound(context: Context, accepted: nat)
  datatype Cached = Cached(key: Key, created: nat, encoded: Bytes)

  /** A reassembly, its packed bitmap and counter read as the set of received indices. */
  datatype RawSlot = Slot(
    key: Key, kind: MessageType, total: nat, count: nat, received: set<nat>, bytes: nat, updated: nat, buffer: Bytes)
  type Slot = s: RawSlot | |s.buffer| == s.total
    witness Slot(Key(0, 0), Request, 0, 0, {}, 0, 0, [])

  /** Why an outbound request ended. */
  datatype Cause = ByResponse | BySendFailure | ByTimeout | ByShutdown

  /** Why the receiver no longer recognises a request it has admitted. */
  datatype Loss = Evicted | Expired | Unanswerable | ShutDown

  datatype Event =
    | Submitted(key: Key, invocation: Invocation, payload: Bytes)
    | Completed(key: Key, result: CommandResult, cause: Cause)
    | Transmitted(to: Addr, frame: Bytes, message: Message, index: nat)
    | Refused(to: Addr, message: Message, index: nat)
    | Assembled(key: Key, kind: MessageType, payload: Bytes)
    | Admitted(key: Key)
    | PolicyAsked(context: Context)
    | Handed(context: Context)
    | Invoked(context: Context, result: CommandResult)
    | Answered(context: Context, result: CommandResult)
    | Stored(key: Key, result: CommandResult)
    | Forgot(key: Key, loss: Loss)

  type Log = seq<Event>

  /** How the callbacks behave during one call; `accepts` is indexed by the length of the log. */
  datatype Env = Env(
    accepts: nat -> bool,
    policy: Context -> CommandResult,
    handler: Context -> bool,
    registry: TextInvocation -> CommandResult)

  datatype State = State(
    initialized: bool, config: Config, hasPolicy: bool, hasHandler: bool,
    pending: seq<Pending>, inbound: seq<Inbound>, slots: seq<Slot>, duplicates: seq<Cached>,
    nextId: U64, drawn: nat, log: Log)

  datatype Outcome = Outcome(state: State, ok: bool)

  // ---------------------------------------------------------------- results and texts

  function Ascii(s: string): (t: Text)
    ensures |t| == |s|
  {
    seq(|s|, i requires 0 <= i < |s| => (s[i] as int) % 256)
  }

  function Error(message: string, code: Int32): CommandResult {
    CommandResult(false, code, Ascii(message))
  }

  const SEND_FAILED := Error("Failed to send ESP-NOW Command request", 2)
  const SHUT_DOWN := Error("ESP-NOW Command endpoint shut down", 3)
  const TIMED_OUT := Error("ESP-NOW Command request timed out", 4)
  const MALFORMED := Error("Malformed ESP-NOW Command request", 5)
  const EXHAUSTED := Error("Inbound Command capacity exhausted", 6)
  const NOT_HANDED := Error("Inbound Command handoff rejected", 7)
  const INBOUND_TIMED_OUT := Error("Inbound ESP-NOW Command request timed out", 8)

  // ---------------------------------------------------------------- table lookups

  function Elapsed(now: nat, since: nat): nat { if now >= since then now - since else 0 }

  /** Less than `limit` has gone by; a clock that has gone back counts as no time at all. */
  predicate Within(now: nat, since: nat, limit: nat) { if now < since then limit > 0 else now - since < limit }

  function PendingIs(k: Key): Pending -> bool { (p: Pending) => p.key == k }
  function InboundIs(k: Key): Inbound -> bool { (i: Inbound) => i.context.key == k }
  function CachedIs(k: Key): Cached -> bool { (c: Cached) => c.key == k }
  function SlotIs(k: Key, kind: MessageType): Slot -> bool { (s: Slot) => s.key == k && s.kind == kind }

  function PendingLive(now: nat, c: Config): Pending -> bool {
    (p: Pending) => Elapsed(now, p.started) < c.requestTimeout
  }
  function InboundLive(now: nat, c: Config): Inbound -> bool {
    (i: Inbound) => Elapsed(now, i.accepted) < c.inboundTimeout
  }
  function SlotLive(now: nat, c: Config): Slot -> bool {
    (s: Slot) => Elapsed(now, s.updated) < c.reassemblyTimeout
  }
  function CachedLive(now: nat, c: Config): Cached -> bool {
    (d: Cached) => Elapsed(now, d.created) < c.duplicateLifetime
  }

  // ---------------------------------------------------------------- sending

  function Emit(s: State, events: Log): State { s.(log := s.log + events) }

  /** The first `k` fragments of a message leaving for `to`. */
  function Sends(limit: nat, to: Addr, m: Message, k: nat): (es: Log)
    requires k <= FragmentCount(|m.payload|, limit)
    ensures |es| == k
  {
    seq(k, i requires 0 <= i < k => Transmitted(to, Frame(limit, m, i), m, i))
  }

  function SendPayload(s: State, env: Env, to: Addr, m: Message): Outcome {
    var n := FragmentCount(|m.payload|, s.config.maxPayload);
    var k := Passed(env.accepts, |s.log|, n);
    Outcome(Emit(s, Sends(s.config.maxPayload, to, m, k) + if k < n then [Refused(to, m, k)] else []),
            n > 0 && k == n)
  }

  // ---------------------------------------------------------------- answering

  /** `StoreDuplicate`: a full cache loses its oldest entry first. */
  function Store(s: State, key: Key, result: CommandResult, now: nat): State {
    var full := s.duplicates != [] && |s.duplicates| >= s.config.maxDuplicates;
    var kept := if full then s.duplicates[1..] else s.duplicates;
    var lost: Log := if full then [Forgot(s.duplicates[0].key, Evicted)] else [];
    s.(duplicates := kept + [Cached(key, now, ResponseBytes(result))], log := s.log + lost + [Stored(key, result)])
  }

  /** A result with a wire form within the message limit. */
  predicate Answerable(c: Config, result: CommandResult) {
    FitsText(result.message) && |ResponseBytes(result)| <= c.maxMessage
  }

  /** `SendResponseAndCache` */
  function Respond(s: State, env: Env, key: Key, result: CommandResult, now: nat): Outcome {
    if !Answerable(s.config, result) then Outcome(Emit(s, [Forgot(key, Unanswerable)]), false)
    else SendPayload(Store(s, key, result, now), env, key.peer, Message(Response, key.id, ResponseBytes(result)))
  }

  // ---------------------------------------------------------------- complete messages

  function HandleRequest(s: State, env: Env, key: Key, payload: Bytes, now: nat): Outcome {
    var at := First(s.duplicates, CachedIs(key));
    if at < |s.duplicates| then
      SendPayload(s, env, key.peer, Message(Response, key.id, s.duplicates[at].encoded))
    else if First(s.inbound, InboundIs(key)) < |s.inbound| then Outcome(s, true)
    else Admit(Emit(s, [Admitted(key)]), env, key, payload, now)
  }

  function Admit(s: State, env: Env, key: Key, payload: Bytes, now: nat): Outcome {
    match DecodeRequest(payload)
    case None => Respond(s, env, key, MALFORMED, now)
    case Some(invocation) =>
      var context := Context(key, invocation);
      if !s.hasPolicy then Execute(s, env, context, now)
      else
        var verdict := env.policy(context);
        var s1 := Emit(s, [PolicyAsked(context)]);
        if verdict.success then Execute(s1, env, context, now)
        else Respond(Emit(s1, [Answered(context, verdict)]), env, key, verdict, now)
  }

  function Execute(s: State, env: Env, context: Context, now: nat): Outcome {
    if !s.hasHandler then
      var result := env.registry(context.invocation);
      Respond(Emit(s, [Invoked(context, result), Answered(context, result)]), env, context.key, result, now)
    else if |s.inbound| >= s.config.maxInbound then Respond(s, env, context.key, EXHAUSTED, now)
    else if env.handler(context) then
      Outcome(Emit(s, [Handed(context)]).(inbound := s.inbound + [Inbound(context, now)]), true)
    else Respond(Emit(s, [Handed(context)]), env, context.key, NOT_HANDED, now)
  }

  function HandleResponse(s: State, key: Key, payload: Bytes): Outcome {
    match DecodeResponse(payload)
    case None => Outcome(s, false)
    case Some(result) =>
      var at := First(s.pending, PendingIs(key));
      if at == |s.pending| then Outcome(s, false)
      else Outcome(Emit(s, [Completed(key, result, ByResponse)]).(pending := Remove(s.pending, at)), true)
  }

  function Dispatch(s: State, env: Env, key: Key, kind: MessageType, payload: Bytes, now: nat): Outcome {
    var s1 := Emit(s, [Assembled(key, kind, payload)]);
    match kind
    case Request => HandleRequest(s1, env, key, payload, now)
    case Response => HandleResponse(s1, key, payload)
  }

  // ---------------------------------------------------------------- reassembly

  datatype Reassembled =
    | Dropped
    | Kept(slots: seq<Slot>, ok: bool)
    | Whole(slots: seq<Slot>, payload: Bytes)

  /** The reassembly branch of `Receive` (lines 179-229). */
  function Reassemble(slots: seq<Slot>, c: Config, key: Key, h: Header, data: Bytes, now: nat): (r: Reassembled)
    requires c.maxPayload > HEADER_SIZE && |data| == h.length
  {
    var offset := Start(Capacity(c.maxPayload), h.index);
    if offset >= h.total || h.length > h.total - offset then Dropped
    else
      var at := First(slots, SlotIs(key, h.kind));
      if at == |slots| then
        if |slots| >= c.maxReassemblies then Dropped
        else
          var blank: Slot := Slot(key, h.kind, h.total, h.count, {}, 0, now, seq(h.total, _ => 0));
          Settle(slots + [blank], at, Take(blank, h.index, offset, data, now), true)
      else if slots[at].total != h.total || slots[at].count != h.count then Dropped
      else
        var slot := slots[at];
        var agrees := h.index !in slot.received || slot.buffer[offset..offset + h.length] == data;
        Settle(slots, at, Take(slot, h.index, offset, data, now), agrees)
  }

  /** Copies a fragment in unless its index has been seen. */
  function Take(slot: Slot, index: nat, offset: nat, data: Bytes, now: nat): Slot
    requires offset + |data| <= slot.total
  {
    if index in slot.received then slot.(updated := now)
    else slot.(updated := now, received := slot.received + {index}, bytes := slot.bytes + |data|,
               buffer := Overwrite(slot.buffer, offset, data))
  }

  /** Puts the slot back, or takes it out when it is complete and consistent. */
  function Settle(slots: seq<Slot>, at: nat, slot: Slot, agrees: bool): Reassembled
    requires at < |slots|
  {
    if !agrees || slot.bytes > slot.total then Kept(slots[at := slot], false)
    else if |slot.received| != slot.count then Kept(slots[at := slot], true)
    else if slot.bytes != slot.total then Kept(slots[at := slot], false)
    else Whole(Remove(slots, at), slot.buffer)
  }

  // ---------------------------------------------------------------- public calls

  predicate ValidConfig(c: Config) {
    && c.maxPayload > HEADER_SIZE && c.maxMessage > 0 && c.maxOutstanding > 0 && c.maxReassemblies > 0
    && c.maxDuplicates > 0 && c.maxInbound > 0 && c.inboundTimeout > 0
  }

  /** A newly constructed endpoint object. */
  function Fresh(c: Config): State {
    State(false, c, false, false, [], [], [], [], 1, 0, [])
  }

  function Completions(pending: seq<Pending>, result: CommandResult, cause: Cause): (es: Log)
    ensures |es| == |pending|
    ensures forall i :: 0 <= i < |es| ==> es[i] == Completed(pending[i].key, result, cause)
  {
    seq(|pending|, i requires 0 <= i < |pending| => Completed(pending[i].key, result, cause))
  }

  function Losses(keys: seq<Key>, loss: Loss): (es: Log)
    ensures |es| == |keys|
    ensures forall i :: 0 <= i < |es| ==> es[i] == Forgot(keys[i], loss)
  {
    seq(|keys|, i requires 0 <= i < |keys| => Forgot(keys[i], loss))
  }

  function InboundKeys(xs: seq<Inbound>): (ks: seq<Key>)
    ensures |ks| == |xs| && forall i :: 0 <= i < |xs| ==> ks[i] == xs[i].context.key
  {
    seq(|xs|, i requires 0 <= i < |xs| => xs[i].context.key)
  }

  function CachedKeys(xs: seq<Cached>): (ks: seq<Key>)
    ensures |ks| == |xs| && forall i :: 0 <= i < |xs| ==> ks[i] == xs[i].key
  {
    seq(|xs|, i requires 0 <= i < |xs| => xs[i].key)
  }

  function Stop(s: State): State {
    var events := if !s.initialized then [] else
      Completions(s.pending, SHUT_DOWN, ByShutdown) + Losses(InboundKeys(s.inbound), ShutDown)
      + Losses(CachedKeys(s.duplicates), ShutDown);
    Emit(s, events).(initialized := false, hasPolicy := false, hasHandler := false,
                     pending := [], inbound := [], slots := [], duplicates := [])
  }

  function Configure(s: State, c: Config): Outcome {
    var s1 := Stop(s);
    if ValidConfig(c) then Outcome(s1.(initialized := true, config := c), true) else Outcome(s1, false)
  }

  /** The identifier `Invoke` draws from the counter: zero is skipped. */
  function DrawId(next: U64): U64 { if next == 0 then 1 else next }

  function NextId(next: U64): U64 {
    (DrawId(next) + 1) % 0x1_0000_0000_0000_0000
  }

  function Call(s: State, env: Env, peer: Addr, inv: Invocation, now: nat): Outcome {
    if !s.initialized || inv.path == [] || |s.pending| >= s.config.maxOutstanding then Outcome(s, false)
    else
      var key := Key(peer, DrawId(s.nextId));
      var s1 := s.(nextId := NextId(s.nextId), drawn := s.drawn + 1);
      if !Encodable(inv) || |RequestBytes(inv)| > s.config.maxMessage then Outcome(s1, false)
      else
        var s2 := Emit(s1, [Submitted(key, inv, RequestBytes(inv))]).(pending := s.pending + [Pending(key, now)]);
        var o := SendPayload(s2, env, peer, Message(Request, key.id, RequestBytes(inv)));
        if o.ok then o
        else Outcome(Emit(o.state, [Completed(key, SEND_FAILED, BySendFailure)]).(pending := s.pending), false)
  }

  function Receive(s: State, env: Env, peer: Addr, data: Bytes, now: nat): Outcome
    requires s.initialized ==> ValidConfig(s.config)
  {
    var parsed := ParseFrame(data);
    if !s.initialized || parsed.None? then Outcome(s, false)
    else
      var (h, bytes) := parsed.value;
      if h.total > s.config.maxMessage then Outcome(s, false)
      else if h.count == 1 then
        if h.index != 0 || h.length != h.total then Outcome(s, false)
        else Dispatch(s, env, Key(peer, h.id), h.kind, bytes, now)
      else
        match Reassemble(s.slots, s.config, Key(peer, h.id), h, bytes, now)
        case Dropped => Outcome(s, false)
        case Kept(slots, ok) => Outcome(s.(slots := slots), ok)
        case Whole(slots, payload) => Dispatch(s.(slots := slots), env, Key(peer, h.id), h.kind, payload, now)
  }

  function Complete(s: State, env: Env, key: Key, result: CommandResult, now: nat): Outcome {
    var at := First(s.inbound, InboundIs(key));
    if !s.initialized || at == |s.inbound| then Outcome(s, false)
    else
      var s1 := Emit(s, [Answered(s.inbound[at].context, result)]).(inbound := Remove(s.inbound, at));
      Respond(s1, env, key, result, now)
  }

  /** Answers each expired inbound request in turn. */
  function ExpireInbound(s: State, env: Env, expired: seq<Inbound>, now: nat): State {
    if expired == [] then s
    else
      var s1 := ExpireInbound(s, env, expired[..|expired| - 1], now);
      var context := expired[|expired| - 1].context;
      Respond(Emit(s1, [Answered(context, INBOUND_TIMED_OUT)]), env, context.key, INBOUND_TIMED_OUT, now).state
  }

  /** Entries of the cache whose lifetime is over. */
  function ExpireCache(s: State, now: nat): State {
    var live := CachedLive(now, s.config);
    s.(duplicates := Filter(s.duplicates, live),
       log := s.log + Losses(CachedKeys(Filter(s.duplicates, Not(live))), Expired))
  }

  function Sweep(s: State, env: Env, now: nat): State {
    if !s.initialized then s
    else
      var pendingLive, inboundLive := PendingLive(now, s.config), InboundLive(now, s.config);
      var s1 := s.(pending := Filter(s.pending, pendingLive),
                   log := s.log + Completions(Filter(s.pending, Not(pendingLive)), TIMED_OUT, ByTimeout));
      var s2 := ExpireInbound(s1.(inbound := Filter(s.inbound, inboundLive)), env,
                              Filter(s.inbound, Not(inboundLive)), now);
      ExpireCache(s2.(slots := Filter(s2.slots, SlotLive(now, s.config))), now)
  }

  // ---------------------------------------------------------------- runs

  datatype Action =
    | Initialize(config: Config)
    | Shutdown
    | SetPolicy(present: bool)
    | SetHandler(present: bool)
    | DoInvoke(env: Env, peer: Addr, invocation: Invocation, now: nat)
    | DoReceive(env: Env, peer: Addr, data: Bytes, now: nat)
    | DoComplete(env: Env, key: Key, result: CommandResult, now: nat)
    | DoUpdate(env: Env, now: nat)

  function Apply(s: State, a: Action): State
    requires s.initialized ==> ValidConfig(s.config)
  {
    match a
    case Initialize(c) => Configure(s, c).state
    case Shutdown => Stop(s)
    case SetPolicy(present) => s.(hasPolicy := present)
    case SetHandler(present) => s.(hasHandler := present)
    case DoInvoke(env, peer, inv, now) => Call(s, env, peer, inv, now).state
    case DoReceive(env, peer, data, now) => Receive(s, env, peer, data, now).state
    case DoComplete(env, key, result, now) => Complete(s, env, key, result, now).state
    case DoUpdate(env, now) => Sweep(s, env, now)
  }
}
