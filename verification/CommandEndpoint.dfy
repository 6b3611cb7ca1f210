/**
 * The endpoint as the source writes it: tables updated in place by index loops, fragments
 * copied into one flat buffer, receipt kept in a packed bitmap with a counter beside it.
 * Every method is proved to do exactly what its function in `CommandModel` says.
 */
module CommandEndpoint {
  import opened Bytes
  import opened Chunks
  import opened CommandCodec
  import opened CommandFragments
  import opened CommandModel
  import opened ReceiptBitmap
  import opened Sending
  import opened Tables

  /** One reassembly as stored: bitmap and counter instead of a set. */
  datatype RawReassembly = Reassembly(
    key: Key, kind: MessageType, total: nat, count: nat, receivedCount: nat, receivedBytes: nat, updated: nat,
    buffer: Bytes, bits: Bitmap)

  /** The bitmap covers the fragments, no bit beyond them is set, and the counter counts the bits. */
  ghost predicate Packed(r: RawReassembly) {
    && |r.buffer| == r.total && |r.bits| == BitmapBytes(r.count)
    && Indices(r.bits) <= AllIndices(r.count) && r.receivedCount == |Indices(r.bits)|
  }

  type Reassembly = r: RawReassembly | Packed(r)
    ghost witness RawReassembly.Reassembly(Key(0, 0), Request, 0, 0, 0, 0, 0, [], [])

  ghost function SlotOf(r: Reassembly): Slot {
    Slot(r.key, r.kind, r.total, r.count, Indices(r.bits), r.receivedBytes, r.updated, r.buffer)
  }

  ghost function SlotsOf(rs: seq<Reassembly>): (slots: seq<Slot>)
    ensures |slots| == |rs| && forall i :: 0 <= i < |rs| ==> slots[i] == SlotOf(rs[i])
  {
    seq(|rs|, i requires 0 <= i < |rs| => SlotOf(rs[i]))
  }

  /** The stored reassemblies and the answers given are what `r` asks for. */
  ghost predicate Reflects(r: Reassembled, before: seq<Reassembly>, after: seq<Reassembly>, ok: bool,
                           complete: Option<Bytes>) {
    match r
    case Dropped => after == before && !ok && complete.None?
    case Kept(slots, kept) => SlotsOf(after) == slots && ok == kept && complete.None?
    case Whole(slots, payload) => SlotsOf(after) == slots && complete == Some(payload)
  }

  lemma BlankPacked(key: Key, kind: MessageType, total: nat, count: nat, now: nat)
    ensures var r := Blank(key, kind, total, count, now);
            && Packed(r) && SlotOf(r) == Slot(key, kind, total, count, {}, 0, now, seq(total, _ => 0))
            && r.total == total && r.count == count
  {
    EmptyIsEmpty(count);
  }

  function Blank(key: Key, kind: MessageType, total: nat, count: nat, now: nat): RawReassembly {
    RawReassembly.Reassembly(key, kind, total, count, 0, 0, now, seq(total, _ => 0), Empty(count))
  }

  /** Copying a new fragment in and setting its bit is `Take` on the set. */
  lemma CopyIsTake(r: Reassembly, index: nat, offset: nat, data: Bytes, now: nat)
    requires index < r.count && offset + |data| <= r.total && !IsReceived(r.bits, index)
    ensures var t := r.(updated := now, buffer := Overwrite(r.buffer, offset, data),
                        bits := MarkReceived(r.bits, index), receivedCount := r.receivedCount + 1,
                        receivedBytes := r.receivedBytes + |data|);
            Packed(t) && SlotOf(t) == Take(SlotOf(r), index, offset, data, now)
  {
    assert index / 8 < |r.bits|;
    MarkAdds(r.bits, index);
  }

  class Endpoint {
    var initialized: bool
    var config: Config
    var hasPolicy: bool
    var hasHandler: bool
    var pending: seq<Pending>
    var inbound: seq<Inbound>
    var reassemblies: seq<Reassembly>
    var duplicates: seq<Cached>
    var nextRequestId: U64
    ghost var drawn: nat
    /** What the callbacks have been given so far. */
    var log: Log

    ghost predicate Valid()
      reads this
    {
      initialized ==> ValidConfig(config)
    }

    /** The endpoint as a value. */
    ghost function Model(): State
      reads this
    {
      State(initialized, config, hasPolicy, hasHandler, pending, inbound, SlotsOf(reassemblies), duplicates,
            nextRequestId, drawn, log)
    }

    constructor (c: Config)
      ensures Valid() && Model() == Fresh(c)
    {
      initialized, config, hasPolicy, hasHandler := false, c, false, false;
      pending, inbound, reassemblies, duplicates := [], [], [], [];
      nextRequestId, drawn, log := 1, 0, [];
    }

    /** Completes every pending request with the shutdown error. */
    method FailPending()
      modifies this`log
      ensures log == old(log) + Completions(pending, SHUT_DOWN, ByShutdown)
    {
      var i := 0;
      while i < |pending|
        invariant i <= |pending|
        invariant log == old(log) + Completions(pending[..i], SHUT_DOWN, ByShutdown)
      {
        var done := Completed(pending[i].key, SHUT_DOWN, ByShutdown);
        assert Completions(pending[..i + 1], SHUT_DOWN, ByShutdown)
               == Completions(pending[..i], SHUT_DOWN, ByShutdown) + [done];
        log := log + [done];
        i := i + 1;
      }
      assert pending[..|pending|] == pending;
    }

    method Shutdown()
      requires Valid()
      modifies this
      ensures Valid() && Model() == Stop(old(Model()))
    {
      hide Completions, Losses, SlotsOf;
      SlotsNone();
      if initialized {
        FailPending();
        log := log + Losses(InboundKeys(inbound), ShutDown) + Losses(CachedKeys(duplicates), ShutDown);
        RegroupEvents(old(log), Completions(pending, SHUT_DOWN, ByShutdown), Losses(InboundKeys(inbound), ShutDown),
                Losses(CachedKeys(duplicates), ShutDown));
      } else {
        assert log + [] == log;
      }
      pending, inbound, reassemblies, duplicates := [], [], [], [];
      hasPolicy, hasHandler, initialized := false, false, false;
    }

    method Initialize(c: Config) returns (ok: bool)
      requires Valid()
      modifies this
      ensures Valid() && Outcome(Model(), ok) == Configure(old(Model()), c)
    {
      Shutdown();
      if c.maxPayload <= HEADER_SIZE || c.maxMessage == 0 || c.maxOutstanding == 0 || c.maxReassemblies == 0
         || c.maxDuplicates == 0 || c.maxInbound == 0 || c.inboundTimeout == 0 {
        return false;
      }
      config, initialized, ok := c, true, true;
    }

    method SetPolicyPresent(present: bool)
      requires Valid()
      modifies this`hasPolicy
      ensures Valid() && Model() == Apply(old(Model()), SetPolicy(present))
    {
      hasPolicy := present;
    }

    method SetHandlerPresent(present: bool)
      requires Valid()
      modifies this`hasHandler
      ensures Valid() && Model() == Apply(old(Model()), SetHandler(present))
    {
      hasHandler := present;
    }

    /** Sends fragment after fragment until one is refused. */
    method Send(env: Env, to: Addr, m: Message) returns (ok: bool)
      modifies this`log
      ensures Outcome(Model(), ok) == SendPayload(old(Model()), env, to, m)
    {
      hide Frame;
      var limit := config.maxPayload;
      var count := FragmentCount(|m.payload|, limit);
      if count == 0 {
        assert log == old(log) + [];
        return false;
      }
      var index := 0;
      while index < count
        invariant index <= count && Passed(env.accepts, |old(log)|, index) == index
        invariant log == old(log) + Sends(limit, to, m, index)
        modifies this`log
      {
        var frame := BuildFragment(limit, m, index);
        if !env.accepts(|log|) {
          RefusedAt(env.accepts, |old(log)|, index, count);
          log := log + [Refused(to, m, index)];
          return false;
        }
        log := log + [Transmitted(to, frame, m, index)];
        index := index + 1;
      }
      ok := true;
    }

    method FindDuplicate(key: Key) returns (i: nat)
      ensures i == First(duplicates, CachedIs(key))
    {
      i := 0;
      while i < |duplicates|
        invariant i <= |duplicates| && forall j :: 0 <= j < i ==> !CachedIs(key)(duplicates[j])
      {
        if duplicates[i].key == key { break; }
        i := i + 1;
      }
      FirstIs(duplicates, CachedIs(key), i);
    }

    method FindInbound(key: Key) returns (i: nat)
      ensures i == First(inbound, InboundIs(key))
    {
      i := 0;
      while i < |inbound|
        invariant i <= |inbound| && forall j :: 0 <= j < i ==> !InboundIs(key)(inbound[j])
      {
        if inbound[i].context.key == key { break; }
        i := i + 1;
      }
      FirstIs(inbound, InboundIs(key), i);
    }

    method StoreDuplicate(key: Key, result: CommandResult, now: nat)
      modifies this`duplicates, this`log
      ensures Model() == Store(old(Model()), key, result, now)
    {
      hide ResponseBytes;
      if duplicates != [] && |duplicates| >= config.maxDuplicates {
        log := log + [Forgot(duplicates[0].key, Evicted)];
        duplicates := duplicates[1..];
      }
      duplicates := duplicates + [Cached(key, now, ResponseBytes(result))];
      log := log + [Stored(key, result)];
      assert old(log) + [] == old(log);
    }

    method SendResponseAndCache(env: Env, key: Key, result: CommandResult, now: nat) returns (ok: bool)
      modifies this`duplicates, this`log
      ensures Outcome(Model(), ok) == Respond(old(Model()), env, key, result, now)
    {
      hide SendPayload, Store;
      if |result.message| > MAXIMUM_TEXT || |ResponseBytes(result)| > config.maxMessage {
        log := log + [Forgot(key, Unanswerable)];
        return false;
      }
      StoreDuplicate(key, result, now);
      ok := Send(env, key.peer, Message(Response, key.id, ResponseBytes(result)));
    }

    method HandleRequestMessage(env: Env, key: Key, payload: Bytes, now: nat) returns (ok: bool)
      modifies this`duplicates, this`log, this`inbound
      ensures Outcome(Model(), ok) == HandleRequest(old(Model()), env, key, payload, now)
    {
      hide SendPayload, Respond, DecodeRequest;
      var duplicate := FindDuplicate(key);
      if duplicate < |duplicates| {
        ok := Send(env, key.peer, Message(Response, key.id, duplicates[duplicate].encoded));
        return;
      }
      var at := FindInbound(key);
      if at < |inbound| { return true; }
      log := log + [Admitted(key)];
      var decoded := DecodeRequestLoop(payload);
      if decoded.None? {
        ok := SendResponseAndCache(env, key, MALFORMED, now);
        return;
      }
      var context := Context(key, decoded.value);
      if hasPolicy {
        var verdict := env.policy(context);
        log := log + [PolicyAsked(context)];
        if !verdict.success {
          log := log + [Answered(context, verdict)];
          ok := SendResponseAndCache(env, key, verdict, now);
          return;
        }
      }
      ok := ExecuteRequest(env, context, now);
    }

    method ExecuteRequest(env: Env, context: Context, now: nat) returns (ok: bool)
      modifies this`duplicates, this`log, this`inbound
      ensures Outcome(Model(), ok) == Execute(old(Model()), env, context, now)
    {
      hide Respond;
      if hasHandler {
        if |inbound| >= config.maxInbound {
          ok := SendResponseAndCache(env, context.key, EXHAUSTED, now);
          return;
        }
        inbound := inbound + [Inbound(context, now)];
        log := log + [Handed(context)];
        if env.handler(context) { return true; }
        inbound := inbound[..|inbound| - 1];
        assert inbound == old(inbound);
        ok := SendResponseAndCache(env, context.key, NOT_HANDED, now);
        return;
      }
      var result := env.registry(context.invocation);
      log := log + [Invoked(context, result), Answered(context, result)];
      ok := SendResponseAndCache(env, context.key, result, now);
    }

    method HandleResponseMessage(key: Key, payload: Bytes) returns (ok: bool)
      modifies this`pending, this`log
      ensures Outcome(Model(), ok) == HandleResponse(old(Model()), key, payload)
    {
      hide DecodeResponse;
      var decoded := DecodeResponseLoop(payload);
      if decoded.None? { return false; }
      var i := 0;
      while i < |pending|
        invariant i <= |pending| && forall j :: 0 <= j < i ==> !PendingIs(key)(pending[j])
        invariant pending == old(pending) && log == old(log)
      {
        if pending[i].key == key {
          FirstIs(pending, PendingIs(key), i);
          pending := pending[..i] + pending[i + 1..];
          log := log + [Completed(key, decoded.value, ByResponse)];
          return true;
        }
        i := i + 1;
      }
      FirstIs(pending, PendingIs(key), |pending|);
      return false;
    }

    method DispatchCompletePayload(env: Env, key: Key, kind: MessageType, payload: Bytes, now: nat) returns (ok: bool)
      modifies this`duplicates, this`log, this`inbound, this`pending
      ensures Outcome(Model(), ok) == Dispatch(old(Model()), env, key, kind, payload, now)
    {
      hide HandleRequest, HandleResponse;
      log := log + [Assembled(key, kind, payload)];
      match kind {
        case Request => ok := HandleRequestMessage(env, key, payload, now);
        case Response => ok := HandleResponseMessage(key, payload);
      }
    }

    /** The reassembly branch of `Receive`: find or create the slot, copy, mark, count, finish. */
    method AcceptFragment(key: Key, h: Header, data: Bytes, now: nat) returns (ok: bool, complete: Option<Bytes>)
      requires ValidConfig(config) && |data| == h.length && h.index < h.count
      modifies this`reassemblies
      ensures Reflects(Reassemble(old(SlotsOf(reassemblies)), config, key, h, data, now),
                       old(reassemblies), reassemblies, ok, complete)
    {
      hide Settle, Take, AllIndices, Indices, Blank, Reassemble;
      complete, ok := None, false;
      var offset := (config.maxPayload - HEADER_SIZE) * h.index;
      ghost var slots := SlotsOf(reassemblies);
      ReassembleDrops(slots, config, key, h, data, now);
      if offset >= h.total || h.length > h.total - offset { return; }
      var at := FindReassembly(key, h.kind);
      if at == |reassemblies| {
        if |reassemblies| >= config.maxReassemblies { return; }
        ok, complete := StartReassembly(key, h, offset, data, now);
      } else {
        if reassemblies[at].total != h.total || reassemblies[at].count != h.count { return; }
        ReassembleKnown(slots, config, key, h, data, now, at);
        ok, complete := TakeFragment(at, h.index, offset, data, now);
      }
    }

    /** Adds a blank reassembly and takes its first fragment. */
    method StartReassembly(key: Key, h: Header, offset: nat, data: Bytes, now: nat)
      returns (ok: bool, complete: Option<Bytes>)
      requires ValidConfig(config) && |data| == h.length && h.index < h.count
      requires offset == Start(Capacity(config.maxPayload), h.index) && offset < h.total && offset + h.length <= h.total
      requires First(SlotsOf(reassemblies), SlotIs(key, h.kind)) == |reassemblies| < config.maxReassemblies
      modifies this`reassemblies
      ensures Reflects(Reassemble(old(SlotsOf(reassemblies)), config, key, h, data, now),
                       old(reassemblies), reassemblies, ok, complete)
    {
      hide Settle, Take, AllIndices, Indices, Blank, Reassemble;
      ReassembleFirst(SlotsOf(reassemblies), config, key, h, data, now);
      SettleAnswers(SlotsOf(reassemblies) + [BlankSlot(key, h, now)], |reassemblies|,
                    Take(BlankSlot(key, h, now), h.index, offset, data, now), true);
      BlankPacked(key, h.kind, h.total, h.count, now);
      var blank: Reassembly := Blank(key, h.kind, h.total, h.count, now);
      SlotsSnoc(reassemblies, blank);
      reassemblies := reassemblies + [blank];
      ok, complete := TakeFragment(|reassemblies| - 1, h.index, offset, data, now);
    }

    method FindReassembly(key: Key, kind: MessageType) returns (i: nat)
      ensures i == First(SlotsOf(reassemblies), SlotIs(key, kind))
    {
      i := 0;
      ghost var slots := SlotsOf(reassemblies);
      while i < |reassemblies|
        invariant i <= |reassemblies| && forall j :: 0 <= j < i ==> !SlotIs(key, kind)(slots[j])
      {
        if reassemblies[i].key == key && reassemblies[i].kind == kind { break; }
        i := i + 1;
      }
      FirstIs(slots, SlotIs(key, kind), i);
    }

    /** Copies, marks and counts one fragment of slot `at`, and takes the slot out when it is done. */
    method TakeFragment(at: nat, index: nat, offset: nat, data: Bytes, now: nat)
      returns (ok: bool, complete: Option<Bytes>)
      requires at < |reassemblies| && index < reassemblies[at].count && offset + |data| <= reassemblies[at].total
      modifies this`reassemblies
      ensures var slot := old(SlotOf(reassemblies[at]));
              var agrees := index !in slot.received || slot.buffer[offset..offset + |data|] == data;
              Reflects(Settle(old(SlotsOf(reassemblies)), at, Take(slot, index, offset, data, now), agrees),
                       old(reassemblies), reassemblies, ok, complete)
    {
      hide AllIndices, Indices, Overwrite, MarkReceived, IsReceived, SlotsOf;
      complete, ok := None, false;
      var r := reassemblies[at];
      ghost var slots := SlotsOf(reassemblies);
      if !IsReceived(r.bits, index) {
        CopyIsTake(r, index, offset, data, now);
        var taken: Reassembly := r.(updated := now, buffer := Overwrite(r.buffer, offset, data),
                                    bits := MarkReceived(r.bits, index), receivedCount := r.receivedCount + 1,
                                    receivedBytes := r.receivedBytes + |data|);
        r := taken;
      } else {
        var touched: Reassembly := r.(updated := now);
        r := touched;
        if r.buffer[offset..offset + |data|] != data {
          SlotsUpdate(reassemblies, at, r);
          reassemblies := reassemblies[at := r];
          return;
        }
      }
      if r.receivedBytes > r.total || r.receivedCount != r.count || r.receivedBytes != r.total {
        SlotsUpdate(reassemblies, at, r);
        reassemblies := reassemblies[at := r];
        ok := r.receivedBytes <= r.total && r.receivedCount != r.count;
        return;
      }
      complete := Some(r.buffer);
      SlotsRemove(reassemblies, at);
      reassemblies := reassemblies[..at] + reassemblies[at + 1..];
      ok := true;
    }

    method ReceiveFrame(env: Env, peer: Addr, data: Bytes, now: nat) returns (ok: bool)
      requires Valid()
      modifies this
      ensures Valid() && Outcome(Model(), ok) == Receive(old(Model()), env, peer, data, now)
    {
      hide Dispatch, Reassemble, ParseFrame;
      if !initialized { return false; }
      var parsed := ParseFrame(data);
      if parsed.None? { return false; }
      var h, bytes := parsed.value.0, parsed.value.1;
      if h.total > config.maxMessage { return false; }
      var key := Key(peer, h.id);
      if h.count == 1 {
        if h.index != 0 || h.length != h.total { return false; }
        ok := DispatchCompletePayload(env, key, h.kind, bytes, now);
        return;
      }
      var complete;
      ok, complete := AcceptFragment(key, h, bytes, now);
      if complete.Some? { ok := DispatchCompletePayload(env, key, h.kind, complete.value, now); }
    }

    /** The next identifier; zero is skipped. */
    method DrawRequestId() returns (id: U64)
      modifies this`nextRequestId, this`drawn
      ensures id == DrawId(old(nextRequestId)) && id != 0
      ensures nextRequestId == NextId(old(nextRequestId)) && drawn == old(drawn) + 1
    {
      id := nextRequestId;
      nextRequestId := (nextRequestId + 1) % 0x1_0000_0000_0000_0000;
      if id == 0 {
        id := nextRequestId;
        nextRequestId := (nextRequestId + 1) % 0x1_0000_0000_0000_0000;
      }
      drawn := drawn + 1;
    }

    method Invoke(env: Env, peer: Addr, inv: Invocation, now: nat) returns (ok: bool, requestId: Option<U64>)
      requires Valid()
      modifies this
      ensures Valid() && Outcome(Model(), ok) == Call(old(Model()), env, peer, inv, now)
      ensures requestId == if ok then Some(DrawId(old(nextRequestId))) else None
    {
      hide SendPayload, RequestBytes, Encodable, SlotsOf, NextId;
      requestId := None;
      if !initialized || inv.path == [] || |pending| >= config.maxOutstanding { return false, None; }
      var id := DrawRequestId();
      var encoded, payload := EncodeRequestLoop(inv);
      if !encoded || |payload| > config.maxMessage { return false, None; }
      var key := Key(peer, id);
      pending := pending + [Pending(key, now)];
      log := log + [Submitted(key, inv, payload)];
      ok := Send(env, peer, Message(Request, id, payload));
      if !ok {
        pending := pending[..|pending| - 1];
        assert pending == old(pending);
        log := log + [Completed(key, SEND_FAILED, BySendFailure)];
        return;
      }
      requestId := Some(id);
    }

    method CompleteInbound(env: Env, key: Key, result: CommandResult, now: nat) returns (ok: bool)
      requires Valid()
      modifies this
      ensures Valid() && Outcome(Model(), ok) == Complete(old(Model()), env, key, result, now)
    {
      hide Respond;
      if !initialized { return false; }
      var at := FindInbound(key);
      if at == |inbound| { return false; }
      var context := inbound[at].context;
      inbound := inbound[..at] + inbound[at + 1..];
      log := log + [Answered(context, result)];
      ok := SendResponseAndCache(env, key, result, now);
    }

    /** The first loop of `Update`. */
    method SweepPending(now: nat)
      modifies this`pending, this`log
      ensures var live := PendingLive(now, config);
              && pending == Filter(old(pending), live)
              && log == old(log) + Completions(Filter(old(pending), Not(live)), TIMED_OUT, ByTimeout)
      ensures forall p :: p in pending <==> p in old(pending) && Within(now, p.started, config.requestTimeout)
    {
      hide Filter, Completions, Swept;
      var live := PendingLive(now, config);
      ghost var was, seen, dead: seq<Pending> := pending, 0, [];
      SweptStart(was, live);
      CompletionsNone(TIMED_OUT, ByTimeout);
      assert log == log + [];
      var i := 0;
      while i < |pending|
        invariant i <= |pending| && Swept(was, pending, dead, live, seen, i)
        invariant log == old(log) + Completions(dead, TIMED_OUT, ByTimeout)
        decreases |was| - seen
      {
        SweptItem(was, pending, dead, live, seen, i);
        var p := pending[i];
        if Elapsed(now, p.started) >= config.requestTimeout {
          CompletionsStep(dead, p, TIMED_OUT, ByTimeout);
          SweptDrop(was, pending, dead, live, seen, i);
          pending := pending[..i] + pending[i + 1..];
          log := log + [Completed(p.key, TIMED_OUT, ByTimeout)];
          dead := dead + [p];
        } else {
          SweptKeep(was, pending, dead, live, seen, i);
          i := i + 1;
        }
        seen := seen + 1;
      }
      SweptEnd(was, pending, dead, live, seen, i);
    }

    /** Removes inbound request `i` and answers it with the timeout error. */
    method ExpireRequest(env: Env, i: nat, now: nat)
      requires i < |inbound|
      modifies this`inbound, this`duplicates, this`log
      ensures inbound == Remove(old(inbound), i)
      ensures Model() == TimedOut(old(Model()).(inbound := Remove(old(inbound), i)), env, old(inbound[i]), now)
    {
      hide Respond, SlotsOf;
      var context := inbound[i].context;
      inbound := inbound[..i] + inbound[i + 1..];
      log := log + [Answered(context, INBOUND_TIMED_OUT)];
      var sent := SendResponseAndCache(env, context.key, INBOUND_TIMED_OUT, now);
      RespondInbound(old(Model()).(inbound := inbound), env, context, now);
    }

    /** The second loop of `Update`: each expired request is answered with the timeout error. */
    method SweepInbound(env: Env, now: nat)
      modifies this`inbound, this`duplicates, this`log
      ensures var live := InboundLive(now, config);
              Model() == ExpireInbound(old(Model()).(inbound := Filter(old(inbound), live)), env,
                                       Filter(old(inbound), Not(live)), now)
    {
      hide Filter, ExpireInbound, SlotsOf, TimedOut, Swept, Remove;
      var live := InboundLive(now, config);
      ghost var was, seen, start, dead: seq<Inbound> := inbound, 0, Model(), [];
      SweptStart(was, live);
      ExpireNone(start, env, now);
      var i := 0;
      while i < |inbound|
        invariant i <= |inbound| && Swept(was, inbound, dead, live, seen, i)
        invariant Model() == ExpireInbound(start.(inbound := inbound), env, dead, now)
        decreases |was| - seen
      {
        SweptItem(was, inbound, dead, live, seen, i);
        var item := inbound[i];
        if Elapsed(now, item.accepted) >= config.inboundTimeout {
          ExpireElsewhere(start.(inbound := inbound), env, dead, now, Remove(inbound, i));
          ExpireStep(start.(inbound := Remove(inbound, i)), env, dead, item, now);
          SweptDrop(was, inbound, dead, live, seen, i);
          ExpireRequest(env, i, now);
          dead := dead + [item];
        } else {
          SweptKeep(was, inbound, dead, live, seen, i);
          i := i + 1;
        }
        seen := seen + 1;
      }
      SweptEnd(was, inbound, dead, live, seen, i);
    }

    /** `std::remove_if` over the reassemblies. */
    method SweepReassemblies(now: nat)
      modifies this`reassemblies
      ensures SlotsOf(reassemblies) == Filter(old(SlotsOf(reassemblies)), SlotLive(now, config))
    {
      hide Filter, SlotsOf;
      var all, kept: seq<Reassembly> := reassemblies, [];
      ghost var slots, live := SlotsOf(all), SlotLive(now, config);
      FilterNone(slots, live);
      SlotsNone();
      for i := 0 to |all|
        invariant SlotsOf(kept) == Filter(slots[..i], live)
      {
        FilterStep(slots, live, i);
        if Elapsed(now, all[i].updated) < config.reassemblyTimeout {
          SlotsSnoc(kept, all[i]);
          kept := kept + [all[i]];
        }
      }
      assert slots[..|slots|] == slots;
      reassemblies := kept;
    }

    /** `std::remove_if` over the cached answers. */
    method SweepDuplicates(now: nat)
      modifies this`duplicates, this`log
      ensures Model() == ExpireCache(old(Model()), now)
    {
      hide Losses, Filter, CachedKeys, SlotsOf;
      var live := CachedLive(now, config);
      var all, kept, lost: seq<Cached> := duplicates, [], [];
      FilterNone(all, live);
      for i := 0 to |all|
        invariant kept == Filter(all[..i], live) && lost == Filter(all[..i], Not(live))
        invariant Model() == old(Model())
      {
        FilterStep(all, live, i);
        if Elapsed(now, all[i].created) >= config.duplicateLifetime {
          lost := lost + [all[i]];
        } else {
          kept := kept + [all[i]];
        }
      }
      assert all[..|all|] == all;
      duplicates := kept;
      log := log + Losses(CachedKeys(lost), Expired);
    }

    method Update(env: Env, now: nat)
      requires Valid()
      modifies this
      ensures Valid() && Model() == Sweep(old(Model()), env, now)
    {
      hide ExpireInbound, ExpireCache, Completions;
      if !initialized { return; }
      SweepPending(now);
      ghost var s1 := Model();
      SweepInbound(env, now);
      ghost var s2 := Model();
      ExpireKeepsSlots(s1.(inbound := Filter(s1.inbound, InboundLive(now, config))), env,
                       Filter(s1.inbound, Not(InboundLive(now, config))), now);
      SweepReassemblies(now);
      SweepDuplicates(now);
    }
  }

  /** An erase loop at position `i` of `cur`, having looked at the first `seen` entries of `was`. */
  ghost predicate Swept<T>(was: seq<T>, cur: seq<T>, dead: seq<T>, live: T -> bool, seen: nat, i: nat) {
    && seen <= |was| && i <= |cur| && cur[..i] == Filter(was[..seen], live) && cur[i..] == was[seen..]
    && dead == Filter(was[..seen], Not(live))
  }

  lemma SweptStart<T>(xs: seq<T>, live: T -> bool)
    ensures Swept(xs, xs, [], live, 0, 0)
  {
  }

  lemma SweptItem<T>(was: seq<T>, cur: seq<T>, dead: seq<T>, live: T -> bool, seen: nat, i: nat)
    requires Swept(was, cur, dead, live, seen, i) && i < |cur|
    ensures seen < |was| && cur[i] == was[seen]
  {
    assert cur[i] == cur[i..][0];
  }

  lemma SweptKeep<T>(was: seq<T>, cur: seq<T>, dead: seq<T>, live: T -> bool, seen: nat, i: nat)
    requires Swept(was, cur, dead, live, seen, i) && i < |cur| && live(cur[i])
    ensures Swept(was, cur, dead, live, seen + 1, i + 1)
  {
    hide Filter;
    SweptItem(was, cur, dead, live, seen, i);
    FilterStep(was, live, seen);
    assert cur[..i + 1] == cur[..i] + [cur[i]];
    assert cur[i + 1..] == cur[i..][1..] && was[seen + 1..] == was[seen..][1..];
  }

  lemma SweptDrop<T>(was: seq<T>, cur: seq<T>, dead: seq<T>, live: T -> bool, seen: nat, i: nat)
    requires Swept(was, cur, dead, live, seen, i) && i < |cur| && !live(cur[i])
    ensures Swept(was, cur[..i] + cur[i + 1..], dead + [cur[i]], live, seen + 1, i)
    ensures Remove(cur, i) == cur[..i] + cur[i + 1..]
  {
    hide Filter;
    SweptItem(was, cur, dead, live, seen, i);
    FilterStep(was, live, seen);
    assert (cur[..i] + cur[i + 1..])[..i] == cur[..i];
    assert (cur[..i] + cur[i + 1..])[i..] == cur[i..][1..] && was[seen + 1..] == was[seen..][1..];
  }

  lemma SweptEnd<T>(was: seq<T>, cur: seq<T>, dead: seq<T>, live: T -> bool, seen: nat, i: nat)
    requires Swept(was, cur, dead, live, seen, i) && i == |cur|
    ensures cur == Filter(was, live) && dead == Filter(was, Not(live))
  {
    assert |was[seen..]| == 0;
    assert was[..seen] == was && cur[..i] == cur;
  }

  lemma ReassembleDrops(slots: seq<Slot>, c: Config, key: Key, h: Header, data: Bytes, now: nat)
    requires c.maxPayload > HEADER_SIZE && |data| == h.length
    ensures var offset := Start(Capacity(c.maxPayload), h.index);
            var at := First(slots, SlotIs(key, h.kind));
            (|| offset >= h.total || h.length > h.total - offset
             || (at == |slots| && |slots| >= c.maxReassemblies)
             || (at < |slots| && (slots[at].total != h.total || slots[at].count != h.count)))
            ==>
              Reassemble(slots, c, key, h, data, now) == Dropped
  {
  }

  lemma ReassembleFirst(slots: seq<Slot>, c: Config, key: Key, h: Header, data: Bytes, now: nat)
    requires c.maxPayload > HEADER_SIZE && |data| == h.length
    requires var offset := Start(Capacity(c.maxPayload), h.index); offset < h.total && offset + h.length <= h.total
    requires First(slots, SlotIs(key, h.kind)) == |slots| < c.maxReassemblies
    ensures var offset := Start(Capacity(c.maxPayload), h.index);
            var blank := BlankSlot(key, h, now);
            Reassemble(slots, c, key, h, data, now)
            == Settle(slots + [blank], |slots|, Take(blank, h.index, offset, data, now), true)
  {
    hide Settle, Take;
  }

  ghost function BlankSlot(key: Key, h: Header, now: nat): Slot {
    Slot(key, h.kind, h.total, h.count, {}, 0, now, seq(h.total, _ => 0))
  }

  lemma SettleAnswers(slots: seq<Slot>, at: nat, slot: Slot, agrees: bool)
    requires at < |slots|
    ensures !Settle(slots, at, slot, agrees).Dropped?
  {
  }

  lemma ReassembleKnown(slots: seq<Slot>, c: Config, key: Key, h: Header, data: Bytes, now: nat, at: nat)
    requires c.maxPayload > HEADER_SIZE && |data| == h.length
    requires var offset := Start(Capacity(c.maxPayload), h.index); offset < h.total && offset + h.length <= h.total
    requires at == First(slots, SlotIs(key, h.kind)) && at < |slots| && slots[at].total == h.total
             && slots[at].count == h.count
    ensures var offset := Start(Capacity(c.maxPayload), h.index);
            var agrees := h.index !in slots[at].received || slots[at].buffer[offset..offset + h.length] == data;
            Reassemble(slots, c, key, h, data, now)
              == Settle(slots, at, Take(slots[at], h.index, offset, data, now), agrees)
  {
    hide Settle, Take, First, Overwrite;
  }

  lemma SlotsNone()
    ensures SlotsOf([]) == []
  {
  }

  lemma SlotsUpdate(rs: seq<Reassembly>, at: nat, r: Reassembly)
    requires at < |rs|
    ensures SlotsOf(rs[at := r]) == SlotsOf(rs)[at := SlotOf(r)]
  {
  }

  lemma SlotsRemove(rs: seq<Reassembly>, at: nat)
    requires at < |rs|
    ensures SlotsOf(rs[..at] + rs[at + 1..]) == Remove(SlotsOf(rs), at)
  {
    hide Remove;
    var kept, slots := rs[..at] + rs[at + 1..], Remove(SlotsOf(rs), at);
    forall i | 0 <= i < |kept| ensures SlotsOf(kept)[i] == slots[i] {
    }
  }

  lemma SlotsSnoc(rs: seq<Reassembly>, r: Reassembly)
    ensures SlotsOf(rs + [r]) == SlotsOf(rs) + [SlotOf(r)]
  {
  }

  lemma CompletionsNone(result: CommandResult, cause: Cause)
    ensures Completions([], result, cause) == []
  {
  }

  lemma ExpireNone(s: State, env: Env, now: nat)
    ensures ExpireInbound(s, env, [], now) == s
  {
  }

  ghost function TimedOut(s: State, env: Env, x: Inbound, now: nat): State {
    Respond(Emit(s, [Answered(x.context, INBOUND_TIMED_OUT)]), env, x.context.key, INBOUND_TIMED_OUT, now).state
  }

  lemma RespondInbound(s: State, env: Env, context: Context, now: nat)
    ensures var u := Emit(s, [Answered(context, INBOUND_TIMED_OUT)]);
            Respond(u, env, context.key, INBOUND_TIMED_OUT, now).state.inbound == s.inbound
  {
  }

  lemma ExpireStep(s: State, env: Env, xs: seq<Inbound>, x: Inbound, now: nat)
    ensures ExpireInbound(s, env, xs + [x], now) == TimedOut(ExpireInbound(s, env, xs, now), env, x, now)
  {
    assert (xs + [x])[..|xs|] == xs;
  }

  lemma CompletionsStep(xs: seq<Pending>, p: Pending, result: CommandResult, cause: Cause)
    ensures Completions(xs + [p], result, cause) == Completions(xs, result, cause) + [Completed(p.key, result, cause)]
  {
  }

  /** Answering does not look at the inbound table. */
  lemma {:induction false} ExpireElsewhere(s: State, env: Env, xs: seq<Inbound>, now: nat, inbound: seq<Inbound>)
    ensures ExpireInbound(s.(inbound := inbound), env, xs, now) == ExpireInbound(s, env, xs, now).(inbound := inbound)
  {
    hide Respond;
    if xs != [] {
      var front, context := xs[..|xs| - 1], xs[|xs| - 1].context;
      ExpireElsewhere(s, env, front, now, inbound);
      var u := Emit(ExpireInbound(s, env, front, now), [Answered(context, INBOUND_TIMED_OUT)]);
      RespondElsewhere(u, env, context.key, now, inbound);
    }
  }

  lemma RespondElsewhere(s: State, env: Env, key: Key, now: nat, inbound: seq<Inbound>)
    ensures Respond(s.(inbound := inbound), env, key, INBOUND_TIMED_OUT, now).state
         == Respond(s, env, key, INBOUND_TIMED_OUT, now).state.(inbound := inbound)
  {
    hide FragmentCount, ResponseBytes, Answerable, Sends, Passed;
  }

  lemma {:induction false} ExpireKeepsSlots(s: State, env: Env, xs: seq<Inbound>, now: nat)
    ensures var t := ExpireInbound(s, env, xs, now);
            t.slots == s.slots && t.config == s.config && t.initialized == s.initialized
  {
    if xs != [] { ExpireKeepsSlots(s, env, xs[..|xs| - 1], now); }
  }

  lemma RegroupEvents(a: Log, b: Log, c: Log, d: Log)
    ensures a + b + c + d == a + (b + c + d)
  {
  }
}
