/**
 * Any-order reassembly: whatever order, repetition and interleaving the fragments of a
 * message arrive in, the endpoint puts together exactly its bytes, exactly when the last
 * missing fragment arrives (src/ESPressio_ESPNowCommandEndpoint.hpp:157-238).
 */
module Reassembly {
  import opened Bytes
  import opened Chunks
  import opened CommandCodec
  import opened CommandFragments
  import opened CommandModel
  import opened CommandRuns
  import opened Rounds
  import opened Tables

  // ---------------------------------------------------------------- one slot

  function Count(m: Message, limit: nat): nat { FragmentCount(|m.payload|, limit) }

  /** The slot holds exactly the fragments `seen` of `m`, each in its place. */
  ghost predicate PartOf(slot: Slot, k: Key, m: Message, limit: nat, seen: set<nat>)
    requires limit > HEADER_SIZE
  {
    && slot.key == k && slot.kind == m.kind
    && Count(m, limit) > 1 && slot.count == Count(m, limit) && slot.total == |m.payload|
    && slot.received == seen && seen <= AllIndices(slot.count)
    && slot.bytes == ReceivedBytes(seen, |m.payload|, Capacity(limit), Count(m, limit))
    && HoldsAll(slot.buffer, m.payload, Capacity(limit), seen)
  }

  /** Taking in one more fragment, new or repeated. */
  lemma TakePart(slot: Slot, k: Key, m: Message, limit: nat, seen: set<nat>, i: nat, now: nat)
    requires limit > HEADER_SIZE && PartOf(slot, k, m, limit, seen) && i < Count(m, limit)
    ensures var data, offset := Chunk(m.payload, Capacity(limit), i), Start(Capacity(limit), i);
            && offset + |data| <= slot.total
            && (i in seen ==> slot.buffer[offset..offset + |data|] == data)
            && PartOf(Take(slot, i, offset, data, now), k, m, limit, seen + {i})
  {
    var capacity := Capacity(limit);
    ChunkBounds(|m.payload|, capacity, i);
    if i in seen {
      assert Holds(slot.buffer, m.payload, capacity, i);
      assert seen + {i} == seen;
    } else {
      CopyKeeps(slot.buffer, m.payload, capacity, seen, i);
      ReceivedBytesAdd(seen, i, |m.payload|, capacity, Count(m, limit));
    }
  }

  /** A slot holding some fragments is finished exactly when it holds all of them. */
  lemma PartComplete(slot: Slot, k: Key, m: Message, limit: nat, seen: set<nat>)
    requires limit > HEADER_SIZE && PartOf(slot, k, m, limit, seen)
    ensures slot.bytes <= slot.total
    ensures |slot.received| == slot.count <==> seen == AllIndices(Count(m, limit))
    ensures seen == AllIndices(Count(m, limit)) ==> slot.bytes == slot.total && slot.buffer == m.payload
  {
    CountMeansAll(seen, slot.count);
    ReceivedBytesBound(seen, |m.payload|, Capacity(limit), Count(m, limit));
    if seen == AllIndices(Count(m, limit)) {
      ReceivedBytesFull(seen, |m.payload|, Capacity(limit), Count(m, limit));
      BufferIsPayload(slot.buffer, m.payload, Capacity(limit));
    }
  }

  lemma {:induction false} ReceivedBytesBound(seen: set<nat>, size: nat, capacity: nat, n: nat)
    requires capacity > 0 && n <= ChunkCount(size, capacity)
    ensures ReceivedBytes(seen, size, capacity, n) <= size
    ensures n < ChunkCount(size, capacity) ==> ReceivedBytes(seen, size, capacity, n) <= Start(capacity, n)
  {
    if n > 0 {
      ReceivedBytesBound(seen, size, capacity, n - 1);
      ChunkBounds(size, capacity, n - 1);
      Steps(capacity, n - 1, n);
    }
  }

  /** An empty slot for `m`. */
  lemma BlankPart(k: Key, m: Message, limit: nat, now: nat)
    requires limit > HEADER_SIZE && Count(m, limit) > 1
    ensures PartOf(Slot(k, m.kind, |m.payload|, Count(m, limit), {}, 0, now, seq(|m.payload|, _ => 0)), k, m, limit, {})
  {
    NothingReceived(|m.payload|, Capacity(limit), Count(m, limit));
  }

  lemma {:induction false} NothingReceived(size: nat, capacity: nat, n: nat)
    requires capacity > 0 && n <= ChunkCount(size, capacity)
    ensures ReceivedBytes({}, size, capacity, n) == 0
  {
    if n > 0 { NothingReceived(size, capacity, n - 1); }
  }

  // ---------------------------------------------------------------- the table

  ghost predicate NoSlot(slots: seq<Slot>, k: Key, kind: MessageType) {
    forall i :: 0 <= i < |slots| ==> slots[i].key != k || slots[i].kind != kind
  }

  /** The table holds the fragments `seen` of `m` and nothing else under its key. */
  ghost predicate Tracks(slots: seq<Slot>, k: Key, m: Message, limit: nat, seen: set<nat>)
    requires limit > HEADER_SIZE
  {
    if seen == {} then NoSlot(slots, k, m.kind)
    else exists i :: 0 <= i < |slots| && PartOf(slots[i], k, m, limit, seen)
  }

  lemma SlotFound(slots: seq<Slot>, k: Key, kind: MessageType, i: nat)
    requires SlotsOk(slots) && i < |slots| && slots[i].key == k && slots[i].kind == kind
    ensures First(slots, SlotIs(k, kind)) == i
  {
    assert SlotIs(k, kind)(slots[i]);
    forall j | 0 <= j < i ensures !SlotIs(k, kind)(slots[j]) {
    }
    FirstIs(slots, SlotIs(k, kind), i);
  }

  lemma SlotMissing(slots: seq<Slot>, k: Key, kind: MessageType)
    requires NoSlot(slots, k, kind)
    ensures First(slots, SlotIs(k, kind)) == |slots|
  {
    forall j | 0 <= j < |slots| ensures !SlotIs(k, kind)(slots[j]) {
    }
    FirstIs(slots, SlotIs(k, kind), |slots|);
  }

  /** The header `ParseFrame` finds in fragment `i` of `m`. */
  function HeaderOf(m: Message, limit: nat, i: nat): Header
    requires limit > HEADER_SIZE && i < Count(m, limit)
  {
    Header(m.kind, m.id, |m.payload|, i, Count(m, limit), |Chunk(m.payload, Capacity(limit), i)|)
  }

  /** A fragment of `m` completes it or joins what has been seen. */
  lemma ReassembleOwn(slots: seq<Slot>, c: Config, k: Key, m: Message, seen: set<nat>, i: nat, now: nat)
    requires c.maxPayload > HEADER_SIZE && SlotsOk(slots) && Tracks(slots, k, m, c.maxPayload, seen)
    requires Count(m, c.maxPayload) > 1 && i < Count(m, c.maxPayload)
    requires seen == {} ==> |slots| < c.maxReassemblies
    ensures var data := Chunk(m.payload, Capacity(c.maxPayload), i);
            var r := Reassemble(slots, c, k, HeaderOf(m, c.maxPayload, i), data, now);
            if seen + {i} == AllIndices(Count(m, c.maxPayload))
            then r.Whole? && r.payload == m.payload && Tracks(r.slots, k, m, c.maxPayload, {})
            else r.Kept? && r.ok && Tracks(r.slots, k, m, c.maxPayload, seen + {i})
  {
    hide AllIndices, ReceivedBytes, Chunk, FragmentCount, ChunkCount, HoldsAll, Settle, Take;
    var limit := c.maxPayload;
    var capacity := Capacity(limit);
    CountIsChunkCount(|m.payload|, limit);
    var data, offset := Chunk(m.payload, capacity, i), Start(capacity, i);
    if seen == {} {
      SlotMissing(slots, k, m.kind);
      var blank: Slot := Slot(k, m.kind, |m.payload|, Count(m, limit), {}, 0, now, seq(|m.payload|, _ => 0));
      BlankPart(k, m, limit, now);
      TakePart(blank, k, m, limit, {}, i, now);
      OneIsNotAll(i, Count(m, limit));
      SettleOwn(slots + [blank], |slots|, Take(blank, i, offset, data, now), k, m, limit, {} + {i});
    } else {
      var at :| 0 <= at < |slots| && PartOf(slots[at], k, m, limit, seen);
      SlotFound(slots, k, m.kind, at);
      TakePart(slots[at], k, m, limit, seen, i, now);
      SettleOwn(slots, at, Take(slots[at], i, offset, data, now), k, m, limit, seen + {i});
    }
  }

  lemma OneIsNotAll(i: nat, n: nat)
    requires n > 1
    ensures {i} != AllIndices(n)
  {
    assert 0 in AllIndices(n) && 1 in AllIndices(n);
  }

  lemma SettleOwn(slots: seq<Slot>, at: nat, slot: Slot, k: Key, m: Message, limit: nat, seen: set<nat>)
    requires limit > HEADER_SIZE && at < |slots| && seen != {} && PartOf(slot, k, m, limit, seen)
    requires forall j :: 0 <= j < |slots| && j != at ==> slots[j].key != k || slots[j].kind != m.kind
    ensures var r := Settle(slots, at, slot, true);
            if seen == AllIndices(Count(m, limit))
            then r.Whole? && r.payload == m.payload && Tracks(r.slots, k, m, limit, {})
            else r.Kept? && r.ok && Tracks(r.slots, k, m, limit, seen)
  {
    hide AllIndices, ReceivedBytes, HoldsAll, FragmentCount;
    PartComplete(slot, k, m, limit, seen);
    if seen != AllIndices(Count(m, limit)) {
      assert PartOf(slots[at := slot][at], k, m, limit, seen);
    }
  }

  /** Frames under any other key leave what is known of `m` alone, however malformed. */
  lemma ReassembleOther(slots: seq<Slot>, c: Config, k: Key, m: Message, seen: set<nat>, key: Key, h: Header,
                        data: Bytes, now: nat)
    requires c.maxPayload > HEADER_SIZE && |data| == h.length && h.index < h.count
    requires SlotsOk(slots) && Tracks(slots, k, m, c.maxPayload, seen) && (key != k || h.kind != m.kind)
    ensures var r := Reassemble(slots, c, key, h, data, now);
            r.Dropped? || Tracks(r.slots, k, m, c.maxPayload, seen)
  {
    hide PartOf, Reassemble;
    var r := Reassemble(slots, c, key, h, data, now);
    if !r.Dropped? {
      ReassembleShape(slots, c, key, h, data, now);
      if seen == {} {
        forall j | 0 <= j < |r.slots| ensures r.slots[j].key != k || r.slots[j].kind != m.kind {
          assert r.slots[j] in r.slots;
        }
      } else {
        var i :| 0 <= i < |slots| && PartOf(slots[i], k, m, c.maxPayload, seen);
        PartKey(slots[i], k, m, c.maxPayload, seen);
        ReassembleLeaves(slots, c, key, h, data, now, i);
      }
    }
  }

  /** A slot the frame is not addressed to is still there. */
  lemma ReassembleLeaves(slots: seq<Slot>, c: Config, key: Key, h: Header, data: Bytes, now: nat, i: nat)
    requires c.maxPayload > HEADER_SIZE && |data| == h.length && i < |slots| && !SlotIs(key, h.kind)(slots[i])
    ensures var r := Reassemble(slots, c, key, h, data, now);
            !r.Dropped? ==> slots[i] in r.slots
  {
    hide Overwrite, First;
    var r := Reassemble(slots, c, key, h, data, now);
    if !r.Dropped? {
      var at := First(slots, SlotIs(key, h.kind));
      assert r.slots[if r.Whole? && at < i then i - 1 else i] == slots[i];
    }
  }

  lemma PartKey(slot: Slot, k: Key, m: Message, limit: nat, seen: set<nat>)
    requires limit > HEADER_SIZE && PartOf(slot, k, m, limit, seen)
    ensures slot.key == k && slot.kind == m.kind
  {
  }

  /** What is held under a key, whichever message it belongs to. */
  ghost function SeenIn(slots: seq<Slot>, k: Key, kind: MessageType): set<nat> {
    var at := First(slots, SlotIs(k, kind));
    if at < |slots| then slots[at].received else {}
  }

  /** Slots under `m`'s key hold parts of `m`. */
  ghost predicate OnlyPartsOf(slots: seq<Slot>, k: Key, m: Message, limit: nat)
    requires limit > HEADER_SIZE
  {
    forall j :: 0 <= j < |slots| && slots[j].key == k && slots[j].kind == m.kind ==>
      PartOf(slots[j], k, m, limit, slots[j].received)
  }

  /** Whatever the frame, every slot left is an old one or the one it was addressed to. */
  lemma ReassembleShape(slots: seq<Slot>, c: Config, key: Key, h: Header, data: Bytes, now: nat)
    requires c.maxPayload > HEADER_SIZE && |data| == h.length
    ensures var r := Reassemble(slots, c, key, h, data, now);
            !r.Dropped? ==> forall x :: x in r.slots ==> x in slots || (x.key == key && x.kind == h.kind)
  {
    var r := Reassemble(slots, c, key, h, data, now);
    if !r.Dropped? {
      var at := First(slots, SlotIs(key, h.kind));
      if at < |slots| { assert SlotIs(key, h.kind)(slots[at]); }
      forall x | x in r.slots ensures x in slots || (x.key == key && x.kind == h.kind) {
        var i :| 0 <= i < |r.slots| && r.slots[i] == x;
      }
    }
  }

  /** A fragment of `m` meeting only parts of `m` makes a larger part, or exactly `m`. */
  lemma ReassemblePart(slots: seq<Slot>, c: Config, k: Key, m: Message, i: nat, now: nat)
    requires c.maxPayload > HEADER_SIZE && SlotsOk(slots) && OnlyPartsOf(slots, k, m, c.maxPayload)
    requires Count(m, c.maxPayload) > 1 && i < Count(m, c.maxPayload)
    ensures var r := Reassemble(slots, c, k, HeaderOf(m, c.maxPayload, i),
                                Chunk(m.payload, Capacity(c.maxPayload), i), now);
            var seen := SeenIn(slots, k, m.kind) + {i};
            && (r.Kept? ==> forall x :: x in r.slots && x !in slots ==>
                 PartOf(x, k, m, c.maxPayload, x.received) && x.received <= seen)
            && (r.Whole? ==> r.payload == m.payload && AllIndices(Count(m, c.maxPayload)) <= seen
                             && forall x :: x in r.slots ==> x in slots)
  {
    hide AllIndices, ReceivedBytes, Chunk, FragmentCount, HoldsAll;
    var limit := c.maxPayload;
    var capacity := Capacity(limit);
    CountIsChunkCount(|m.payload|, limit);
    var data, offset := Chunk(m.payload, capacity, i), Start(capacity, i);
    var at := First(slots, SlotIs(k, m.kind));
    if at == |slots| {
      var blank: Slot := Slot(k, m.kind, |m.payload|, Count(m, limit), {}, 0, now, seq(|m.payload|, _ => 0));
      BlankPart(k, m, limit, now);
      TakePart(blank, k, m, limit, {}, i, now);
      SettlePart(slots + [blank], at, Take(blank, i, offset, data, now), k, m, limit, {} + {i}, true);
    } else {
      assert SlotIs(k, m.kind)(slots[at]);
      var seen := slots[at].received;
      TakePart(slots[at], k, m, limit, seen, i, now);
      SettlePart(slots, at, Take(slots[at], i, offset, data, now), k, m, limit, seen + {i}, true);
    }
  }

  lemma SettlePart(slots: seq<Slot>, at: nat, slot: Slot, k: Key, m: Message, limit: nat, seen: set<nat>, agrees: bool)
    requires limit > HEADER_SIZE && at < |slots| && PartOf(slot, k, m, limit, seen)
    ensures var r := Settle(slots, at, slot, agrees);
            && (r.Kept? ==> forall x :: x in r.slots ==>
                 x == slot || exists j :: 0 <= j < |slots| && j != at && slots[j] == x)
            && (r.Whole? ==> r.payload == m.payload && seen == AllIndices(Count(m, limit))
                             && forall x :: x in r.slots ==> exists j :: 0 <= j < |slots| && j != at && slots[j] == x)
  {
    hide AllIndices, ReceivedBytes, HoldsAll, FragmentCount;
    PartComplete(slot, k, m, limit, seen);
    var r := Settle(slots, at, slot, agrees);
    forall x | x in r.slots ensures (r.Kept? && x == slot) || exists j :: 0 <= j < |slots| && j != at && slots[j] == x {
      var i :| 0 <= i < |r.slots| && r.slots[i] == x;
      var j := if r.Whole? && i >= at then i + 1 else i;
      if j != at { assert slots[j] == x; }
    }
  }

  lemma FilterTracks(slots: seq<Slot>, p: Slot -> bool, k: Key, m: Message, limit: nat, seen: set<nat>)
    requires limit > HEADER_SIZE && Tracks(slots, k, m, limit, seen)
    requires forall i :: 0 <= i < |slots| && slots[i].key == k && slots[i].kind == m.kind ==> p(slots[i])
    ensures Tracks(Filter(slots, p), k, m, limit, seen)
  {
    hide PartOf;
    var ys := Filter(slots, p);
    if seen == {} {
      forall i | 0 <= i < |ys| ensures ys[i].key != k || ys[i].kind != m.kind {
        assert ys[i] in slots;
      }
    } else {
      var i :| 0 <= i < |slots| && PartOf(slots[i], k, m, limit, seen);
      PartKey(slots[i], k, m, limit, seen);
      assert slots[i] in ys;
      var j :| 0 <= j < |ys| && ys[j] == slots[i];
    }
  }

  // ---------------------------------------------------------------- what has been put together

  /** The payloads put together under a key and kind, in order. */
  function Arrivals(log: Log, k: Key, kind: MessageType): seq<Bytes> {
    if log == [] then []
    else
      var last := log[|log| - 1];
      Arrivals(log[..|log| - 1], k, kind)
      + if last.Assembled? && last.key == k && last.kind == kind then [last.payload] else []
  }

  lemma {:induction false} ArrivalsSame(a: Log, b: Log, k: Key, kind: MessageType)
    requires a <= b && Tally(a, Assembles, k) == Tally(b, Assembles, k)
    ensures Arrivals(a, k, kind) == Arrivals(b, k, kind)
  {
    if a != b {
      var c := b[..|b| - 1];
      assert a <= c;
      TallyMonotone(a, c, Assembles, k);
      ArrivalsSame(a, c, k, kind);
    }
  }

  lemma DispatchArrives(s: State, env: Env, key: Key, kind: MessageType, payload: Bytes, now: nat, k: Key,
                        of: MessageType)
    requires TablesOk(s) && s.initialized
    ensures Arrivals(Dispatch(s, env, key, kind, payload, now).state.log, k, of)
         == Arrivals(s.log, k, of) + if key == k && kind == of then [payload] else []
  {
    hide HandleRequest, HandleResponse, Tally;
    var s1 := Emit(s, [Assembled(key, kind, payload)]);
    EmitOne(s, Assembled(key, kind, payload), k);
    assert s1.log[..|s.log|] == s.log;
    assert Arrivals(s1.log, k, of) == Arrivals(s.log, k, of) + if key == k && kind == of then [payload] else [];
    if kind == Request {
      HandleRequestKeeps(s1, env, key, payload, now, k);
      ArrivalsSame(s1.log, HandleRequest(s1, env, key, payload, now).state.log, k, of);
    } else {
      HandleResponseKeeps(s1, key, payload, k);
      ArrivalsSame(s1.log, HandleResponse(s1, key, payload).state.log, k, of);
    }
  }

  // ---------------------------------------------------------------- runs

  /** The call delivers a frame carrying `m`'s sender, identifier and kind. */
  predicate Concerns(a: Action, peer: Addr, m: Message) {
    a.DoReceive? && a.peer == peer && ParseFrame(a.data).Some?
    && ParseFrame(a.data).value.0.id == m.id && ParseFrame(a.data).value.0.kind == m.kind
  }

  function IndexIn(a: Action): nat
    requires a.DoReceive? && ParseFrame(a.data).Some?
  {
    ParseFrame(a.data).value.0.index
  }

  /**
   * What is asked of the surroundings: frames under the message's key are fragments of it,
   * the table has room when a slot is needed, and no expiry or shutdown takes the slot away.
   */
  ghost predicate Fair(s: State, a: Action, peer: Addr, m: Message) {
    && !a.Initialize? && !a.Shutdown?
    && (Concerns(a, peer, m) ==>
          && IndexIn(a) < Count(m, s.config.maxPayload) && a.data == Frame(s.config.maxPayload, m, IndexIn(a))
          && (Count(m, s.config.maxPayload) > 1 && NoSlot(s.slots, Key(peer, m.id), m.kind) ==>
                |s.slots| < s.config.maxReassemblies))
    && (a.DoUpdate? ==>
          forall i :: 0 <= i < |s.slots| && SlotIs(Key(peer, m.id), m.kind)(s.slots[i]) ==>
            Within(a.now, s.slots[i].updated, s.config.reassemblyTimeout))
  }

  /** What a call brings of `m`. */
  function PieceIn(peer: Addr, m: Message): Action -> Option<nat> {
    (a: Action) => if Concerns(a, peer, m) then Some(IndexIn(a)) else None
  }

  lemma ReceiveTracks(s: State, a: Action, peer: Addr, m: Message, seen: set<nat>)
    requires TablesOk(s) && s.initialized && UsableLimit(s.config.maxPayload) && a.DoReceive?
    requires |m.payload| <= s.config.maxMessage && Count(m, s.config.maxPayload) > 0
    requires Fair(s, a, peer, m) && Tracks(s.slots, Key(peer, m.id), m, s.config.maxPayload, seen)
    requires Count(m, s.config.maxPayload) == 1 ==> seen == {}
    ensures var t, n := Receive(s, a.env, a.peer, a.data, a.now).state, Count(m, s.config.maxPayload);
            && Tracks(t.slots, Key(peer, m.id), m, s.config.maxPayload, Collect(seen, PieceIn(peer, m)(a), n))
            && Arrivals(t.log, Key(peer, m.id), m.kind)
               == Arrivals(s.log, Key(peer, m.id), m.kind)
                  + if Finishes(seen, PieceIn(peer, m)(a), n) then [m.payload] else []
  {
    hide Dispatch, Reassemble, Tracks, Arrivals, ParseFrame, Frame, FragmentCount, Chunk, AllIndices;
    var k, limit := Key(peer, m.id), s.config.maxPayload;
    var n := Count(m, limit);
    var parsed := ParseFrame(a.data);
    if parsed.Some? {
      var (h, bytes) := parsed.value;
      var key := Key(a.peer, h.id);
      if Concerns(a, peer, m) {
        OwnFragment(s, a, peer, m);
        if n == 1 {
          SingleIsAll();
          DispatchFrame(s, a.env, key, h.kind, bytes, a.now);
          DispatchArrives(s, a.env, key, h.kind, bytes, a.now, k, m.kind);
        } else {
          TracksEmpty(s.slots, k, m, limit, seen);
          ReassembleOwn(s.slots, s.config, k, m, seen, h.index, a.now);
          ReassembleKeeps(s.slots, s.config, k, h, bytes, a.now);
          var r := Reassemble(s.slots, s.config, k, h, bytes, a.now);
          if r.Whole? {
            DispatchFrame(s.(slots := r.slots), a.env, k, h.kind, r.payload, a.now);
            DispatchArrives(s.(slots := r.slots), a.env, k, h.kind, r.payload, a.now, k, m.kind);
          }
        }
      } else if h.total <= s.config.maxMessage {
        if h.count == 1 {
          DispatchFrame(s, a.env, key, h.kind, bytes, a.now);
          DispatchArrives(s, a.env, key, h.kind, bytes, a.now, k, m.kind);
        } else {
          ReassembleOther(s.slots, s.config, k, m, seen, key, h, bytes, a.now);
          ReassembleKeeps(s.slots, s.config, key, h, bytes, a.now);
          var r := Reassemble(s.slots, s.config, key, h, bytes, a.now);
          if r.Whole? {
            DispatchFrame(s.(slots := r.slots), a.env, key, h.kind, r.payload, a.now);
            DispatchArrives(s.(slots := r.slots), a.env, key, h.kind, r.payload, a.now, k, m.kind);
          }
        }
      }
    }
  }

  lemma TracksEmpty(slots: seq<Slot>, k: Key, m: Message, limit: nat, seen: set<nat>)
    requires limit > HEADER_SIZE && Tracks(slots, k, m, limit, seen)
    ensures seen == {} ==> NoSlot(slots, k, m.kind)
  {
  }

  lemma SingleIsAll()
    ensures {} + {0} == AllIndices(1)
  {
  }

  /** Inside a fair delivery the parsed header and bytes are those of the fragment. */
  lemma OwnFragment(s: State, a: Action, peer: Addr, m: Message)
    requires UsableLimit(s.config.maxPayload) && Concerns(a, peer, m) && Fair(s, a, peer, m)
    ensures var limit, i := s.config.maxPayload, IndexIn(a);
            && i < ChunkCount(|m.payload|, Capacity(limit))
            && ParseFrame(a.data) == Some((HeaderOf(m, limit, i), Chunk(m.payload, Capacity(limit), i)))
            && (Count(m, limit) == 1 ==> i == 0 && Chunk(m.payload, Capacity(limit), i) == m.payload)
  {
    hide Pack, Unpack, ParseFrame;
    var limit, i := s.config.maxPayload, IndexIn(a);
    FrameParses(limit, m, i);
    if Count(m, limit) == 1 { ChunkBounds(|m.payload|, Capacity(limit), i); }
  }

  lemma SlotsLive(slots: seq<Slot>, c: Config, now: nat)
    ensures forall i :: 0 <= i < |slots| ==>
              (SlotLive(now, c)(slots[i]) <==> Within(now, slots[i].updated, c.reassemblyTimeout))
  {
  }

  /** Every call keeps the reassembly of `m` in step with the fragments delivered so far. */
  lemma ApplyTracks(s: State, a: Action, peer: Addr, m: Message, seen: set<nat>)
    requires TablesOk(s) && s.initialized && UsableLimit(s.config.maxPayload)
    requires |m.payload| <= s.config.maxMessage && Count(m, s.config.maxPayload) > 0
    requires Fair(s, a, peer, m) && Tracks(s.slots, Key(peer, m.id), m, s.config.maxPayload, seen)
    requires Count(m, s.config.maxPayload) == 1 ==> seen == {}
    ensures var t, n := Apply(s, a), Count(m, s.config.maxPayload);
            && Tracks(t.slots, Key(peer, m.id), m, s.config.maxPayload, Collect(seen, PieceIn(peer, m)(a), n))
            && Arrivals(t.log, Key(peer, m.id), m.kind)
               == Arrivals(s.log, Key(peer, m.id), m.kind)
                  + if Finishes(seen, PieceIn(peer, m)(a), n) then [m.payload] else []
  {
    hide Receive, Tracks, Arrivals, Call, Complete, Sweep, FragmentCount, Tally, SlotLive, ParseFrame;
    if a.DoReceive? {
      ReceiveTracks(s, a, peer, m, seen);
    } else {
      ConfigKept(s, a);
      ApplyKeeps(s, a, Key(peer, m.id));
      ArrivalsSame(s.log, Apply(s, a).log, Key(peer, m.id), m.kind);
      if a.DoUpdate? {
        SlotsLive(s.slots, s.config, a.now);
        FilterTracks(s.slots, SlotLive(a.now, s.config), Key(peer, m.id), m, s.config.maxPayload, seen);
      }
    }
  }

  ghost predicate FairRun(s: State, actions: seq<Action>, peer: Addr, m: Message)
    requires TablesOk(s)
  {
    forall i :: 0 <= i < |actions| ==> Fair(Run(s, actions[..i]), actions[i], peer, m)
  }

  /**
   * Any-order reassembly. Start without fragments of `m` and deliver, in any order, any
   * number of times, and mixed with any other calls and frames, fragments of `m`. Then the
   * messages put together under its key are copies of its payload, one for each time the
   * set of fragments seen since the previous copy became complete; the table holds the
   * fragments of the current round.
   */
  lemma {:induction false} AnyOrderReassembly(s: State, actions: seq<Action>, peer: Addr, m: Message)
    requires TablesOk(s) && s.initialized && UsableLimit(s.config.maxPayload)
    requires |m.payload| <= s.config.maxMessage && Count(m, s.config.maxPayload) > 0
    requires NoSlot(s.slots, Key(peer, m.id), m.kind) && FairRun(s, actions, peer, m)
    ensures var t, n, k := Run(s, actions), Count(m, s.config.maxPayload), Key(peer, m.id);
            && t.initialized && t.config == s.config
            && Arrivals(t.log, k, m.kind)
               == Arrivals(s.log, k, m.kind) + Copies(actions, PieceIn(peer, m), n, m.payload)
            && Tracks(t.slots, k, m, s.config.maxPayload, SeenAfter(actions, PieceIn(peer, m), n))
            && (n == 1 ==> SeenAfter(actions, PieceIn(peer, m), n) == {})
  {
    hide Apply, Fair, Arrivals, FragmentCount, Concerns, Tracks, AllIndices, TablesOk, Finishes, Collect;
    var n, k := Count(m, s.config.maxPayload), Key(peer, m.id);
    if actions == [] {
      TracksNothing(s.slots, k, m, s.config.maxPayload);
    } else {
      var last := |actions| - 1;
      var front, a := actions[..last], actions[last];
      forall i | 0 <= i < |front| ensures Fair(Run(s, front[..i]), front[i], peer, m) {
        assert front[..i] == actions[..i];
      }
      AnyOrderReassembly(s, front, peer, m);
      var t, seen := Run(s, front), SeenAfter(front, PieceIn(peer, m), n);
      assert Fair(t, a, peer, m);
      FairStays(t, a, peer, m, seen);
      ConfigKept(t, a);
      ApplyTracks(t, a, peer, m, seen);
      var before, rounds := Arrivals(s.log, k, m.kind), Copies(front, PieceIn(peer, m), n, m.payload);
      var more := if Finishes(seen, PieceIn(peer, m)(a), n) then [m.payload] else [];
      assert (before + rounds) + more == before + (rounds + more);
    }
  }

  lemma TracksNothing(slots: seq<Slot>, k: Key, m: Message, limit: nat)
    requires limit > HEADER_SIZE && NoSlot(slots, k, m.kind)
    ensures Tracks(slots, k, m, limit, {})
  {
  }

  lemma FairStays(s: State, a: Action, peer: Addr, m: Message, seen: set<nat>)
    requires Fair(s, a, peer, m)
    ensures !a.Initialize? && !a.Shutdown?
    ensures Count(m, s.config.maxPayload) == 1 && seen == {} ==> Collect(seen, PieceIn(peer, m)(a), 1) == {}
  {
    SingleIsAll();
  }
}
