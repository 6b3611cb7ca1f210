/**
 * Event packets in fragments (src/ESPressio_ESPNowEventTransport.hpp:72-113, 201-239, 265-390):
 * the third reassembler of the library, with expiry and oldest-first eviction.
 */
module EventReceiver {
  import opened Bytes
  import opened Chunks
  import opened ReceiptBitmap
  import opened Rounds
  import opened Tables

  const MAGIC := 0x45564E57
  const VERSION := 1
  const HEADER_SIZE := 24
  const CAPACITY := 218
  /** magic, version, reserved, index, count, length, total, message id */
  const FIELDS: seq<nat> := [4, 1, 1, 2, 2, 2, 4, 8]

  /** Compile-time settings; the packet size is limited so that the count fits its field. */
  datatype RawLimits = Limits(maxPacket: nat, maxReassemblies: nat, timeout: nat)
  type Limits = c: RawLimits | ChunkCount(c.maxPacket, CAPACITY) <= 0xFFFF
    witness Limits(0, 0, 0)

  function MaxFragments(c: Limits): nat { ChunkCount(c.maxPacket, CAPACITY) }

  datatype Fragment = Fragment(id: U64, index: nat, count: nat, total: nat, data: Bytes)

  predicate Sound(f: Fragment, c: Limits) {
    && 0 < f.count <= MaxFragments(c) && f.index < f.count && |f.data| <= CAPACITY
    && 0 < f.total <= c.maxPacket && Start(CAPACITY, f.index) + |f.data| <= f.total
  }

  lemma HeaderWidth()
    ensures Width(FIELDS) == HEADER_SIZE
  {
    assert FIELDS[1..] == [1, 1, 2, 2, 2, 4, 8];
    assert [1, 1, 2, 2, 2, 4, 8][1..] == [1, 2, 2, 2, 4, 8];
    assert [1, 2, 2, 2, 4, 8][1..] == [2, 2, 2, 4, 8];
    assert [2, 2, 2, 4, 8][1..] == [2, 2, 4, 8];
    assert [2, 2, 4, 8][1..] == [2, 4, 8];
    assert Width([2, 4, 8]) == 14;
  }

  /** The checks at the head of `HandleFrame`; bytes after the stated length are ignored. */
  function Parse(data: Bytes, c: Limits): (r: Option<Fragment>)
    ensures r.Some? ==> Sound(r.value, c)
  {
    HeaderWidth();
    if |data| < HEADER_SIZE then None
    else
      var v := Unpack(FIELDS, data);
      UnpackFits(FIELDS, data);
      FieldSizes();
      assert v[7] < Pow256(FIELDS[7]);
      if v[0] != MAGIC || v[1] != VERSION || HEADER_SIZE + v[5] > |data| then None
      else
        var f := Fragment(v[7], v[3], v[4], v[6], data[HEADER_SIZE..HEADER_SIZE + v[5]]);
        if Sound(f, c) then Some(f) else None
  }

  // ---------------------------------------------------------------- sending

  datatype Packet = Packet(id: U64, bytes: Bytes)

  predicate Sendable(m: Packet, c: Limits) { 0 < |m.bytes| <= c.maxPacket && |m.bytes| <= 0xFFFF_FFFF }

  function Pieces(m: Packet): nat { ChunkCount(|m.bytes|, CAPACITY) }

  lemma PiecesFit(m: Packet, c: Limits)
    requires Sendable(m, c)
    ensures 0 < Pieces(m) <= MaxFragments(c)
  {
    CountBounds(|m.bytes|, CAPACITY);
  }

  function Piece(m: Packet, i: nat): Fragment
    requires i < Pieces(m)
  {
    Fragment(m.id, i, Pieces(m), |m.bytes|, Chunk(m.bytes, CAPACITY, i))
  }

  function PieceFrame(m: Packet, i: nat): Bytes
    requires i < Pieces(m)
  {
    var data := Chunk(m.bytes, CAPACITY, i);
    Pack(FIELDS, [MAGIC, VERSION, 0, i, Pieces(m), |data|, |m.bytes|, m.id]) + data
  }

  /** What `SendToDestination` puts on the air parses back, and stays parsed with trailing bytes. */
  lemma PieceParses(m: Packet, c: Limits, i: nat, tail: Bytes)
    requires Sendable(m, c) && i < Pieces(m)
    ensures Parse(PieceFrame(m, i) + tail, c) == Some(Piece(m, i))
  {
    hide Pack, Unpack, Pow256, Chunk, ChunkCount;
    var data := Chunk(m.bytes, CAPACITY, i);
    var vs := [MAGIC, VERSION, 0, i, Pieces(m), |data|, |m.bytes|, m.id];
    PieceFits(m, c, i);
    HeaderWidth();
    PackReadsBack(FIELDS, vs, data + tail);
    var frame := PieceFrame(m, i) + tail;
    assert frame == Pack(FIELDS, vs) + (data + tail);
    assert frame[HEADER_SIZE..HEADER_SIZE + |data|] == data;
  }

  lemma PieceFits(m: Packet, c: Limits, i: nat)
    requires Sendable(m, c) && i < Pieces(m)
    ensures Sound(Piece(m, i), c)
    ensures var vs := [MAGIC, VERSION, 0, i, Pieces(m), |Chunk(m.bytes, CAPACITY, i)|, |m.bytes|, m.id];
            forall k :: 0 <= k < |FIELDS| ==> vs[k] < Pow256(FIELDS[k])
  {
    PiecesFit(m, c);
    FieldSizes();
    ChunkBounds(|m.bytes|, CAPACITY, i);
  }

  // ---------------------------------------------------------------- receiving

  datatype RawAssembly = Assembly(
    source: Addr, id: U64, total: nat, count: nat, receivedCount: nat, updated: nat, buffer: Bytes, bits: Bitmap)
  type Assembly = a: RawAssembly | |a.buffer| == a.total
    witness Assembly(0, 0, 0, 0, 0, 0, [], [])

  datatype Delivery = Delivery(source: Addr, count: nat, packet: Packet)

  datatype Table = Table(slots: seq<Assembly>, hasReceiver: bool, delivered: seq<Delivery>)

  function Keyed(source: Addr, id: U64): Assembly -> bool { (a: Assembly) => a.id == id && a.source == source }

  function Alive(c: Limits, now: nat): Assembly -> bool {
    (a: Assembly) => !(now > a.updated && now - a.updated > c.timeout)
  }

  /** `std::min_element` by last reception: the first of the least recent. */
  function Oldest(xs: seq<Assembly>): (k: nat)
    requires xs != []
    ensures k < |xs| && (forall j :: 0 <= j < |xs| ==> xs[k].updated <= xs[j].updated)
    ensures forall j :: 0 <= j < k ==> xs[k].updated < xs[j].updated
  {
    var n := |xs| - 1;
    if n == 0 then 0
    else
      var k := Oldest(xs[..n]);
      if xs[n].updated < xs[k].updated then n else k
  }

  function Blank(c: Limits, source: Addr, f: Fragment, now: nat): Assembly {
    Assembly(source, f.id, f.total, f.count, 0, now, seq(f.total, _ => 0), Empty(MaxFragments(c)))
  }

  /** A full table gives up its least recently received entry. */
  function MakeRoom(slots: seq<Assembly>, c: Limits): seq<Assembly> {
    if |slots| >= c.maxReassemblies && slots != [] then Remove(slots, Oldest(slots)) else slots
  }

  function Put(a: Assembly, f: Fragment, now: nat): Assembly
    requires Start(CAPACITY, f.index) + |f.data| <= a.total
  {
    if IsReceived(a.bits, f.index) then a.(updated := now)
    else a.(updated := now, buffer := Overwrite(a.buffer, Start(CAPACITY, f.index), f.data),
            bits := MarkReceived(a.bits, f.index), receivedCount := a.receivedCount + 1)
  }

  function Deliver(t: Table, d: Delivery): Table {
    if t.hasReceiver then t.(delivered := t.delivered + [d]) else t
  }

  /** Lines 361-389, for a slot that exists. */
  function Settle(t: Table, slots: seq<Assembly>, at: nat, f: Fragment, now: nat): Table
    requires at < |slots| && Start(CAPACITY, f.index) + |f.data| <= f.total
  {
    var a := slots[at];
    if a.total != f.total || a.count != f.count then t.(slots := Remove(slots, at))
    else
      var b := Put(a, f, now);
      if b.receivedCount == b.count then
        Deliver(t.(slots := Remove(slots, at)), Delivery(b.source, b.count, Packet(b.id, b.buffer)))
      else t.(slots := slots[at := b])
  }

  /** `HandleFrame` after the header checks. */
  function HandleFragment(t: Table, c: Limits, source: Addr, f: Fragment, now: nat): Table
    requires Sound(f, c)
  {
    if f.count == 1 then
      if |f.data| != f.total then t else Deliver(t, Delivery(source, 1, Packet(f.id, f.data)))
    else
      var live := Filter(t.slots, Alive(c, now));
      var at := First(live, Keyed(source, f.id));
      if at < |live| then Settle(t, live, at, f, now)
      else
        var room := MakeRoom(live, c);
        Settle(t, room + [Blank(c, source, f, now)], |room|, f, now)
  }

  function Handle(t: Table, c: Limits, source: Addr, data: Bytes, now: nat): Table {
    match Parse(data, c)
    case None => t
    case Some(f) => HandleFragment(t, c, source, f, now)
  }

  // ---------------------------------------------------------------- the table under arbitrary frames

  /** The counter counts the bits, no bit beyond the count is set, an entry is never complete. */
  ghost predicate WellFormed(a: Assembly) {
    && Indices(a.bits) <= AllIndices(a.count) && a.receivedCount == |Indices(a.bits)|
    && BitmapBytes(a.count) <= |a.bits|
  }

  ghost predicate TableOk(slots: seq<Assembly>, c: Limits) {
    && (forall i :: 0 <= i < |slots| ==> WellFormed(slots[i]))
    && (forall i, j :: 0 <= i < j < |slots| ==> !Keyed(slots[i].source, slots[i].id)(slots[j]))
    && |slots| <= if c.maxReassemblies == 0 then 1 else c.maxReassemblies
  }

  lemma BlankWellFormed(c: Limits, source: Addr, f: Fragment, now: nat)
    requires Sound(f, c)
    ensures WellFormed(Blank(c, source, f, now)) && Indices(Blank(c, source, f, now).bits) == {}
  {
    EmptyIsEmpty(MaxFragments(c));
  }

  lemma PutKeeps(a: Assembly, f: Fragment, now: nat)
    requires WellFormed(a) && f.index < a.count && Start(CAPACITY, f.index) + |f.data| <= a.total
    ensures var b := Put(a, f, now);
            && WellFormed(b) && Indices(b.bits) == Indices(a.bits) + {f.index}
            && b.source == a.source && b.id == a.id && b.total == a.total && b.count == a.count
  {
    assert f.index / 8 < |a.bits|;
    MarkAdds(a.bits, f.index);
    if IsReceived(a.bits, f.index) { assert Indices(a.bits) + {f.index} == Indices(a.bits); }
  }

  lemma RemoveOk(slots: seq<Assembly>, c: Limits, at: nat)
    requires TableOk(slots, c) && at < |slots|
    ensures TableOk(Remove(slots, at), c)
  {
    hide WellFormed;
    var r := Remove(slots, at);
    forall i | 0 <= i < |r| ensures r[i] == slots[if i < at then i else i + 1] {
    }
  }

  lemma UpdateOk(slots: seq<Assembly>, c: Limits, at: nat, b: Assembly)
    requires TableOk(slots, c) && at < |slots| && WellFormed(b) && b.source == slots[at].source && b.id == slots[at].id
    ensures TableOk(slots[at := b], c)
  {
    hide WellFormed;
  }

  lemma FilterOk(slots: seq<Assembly>, c: Limits, p: Assembly -> bool)
    requires TableOk(slots, c)
    ensures TableOk(Filter(slots, p), c)
  {
    hide WellFormed, Filter;
    var live := Filter(slots, p);
    forall i | 0 <= i < |live| ensures WellFormed(live[i]) {
      assert live[i] in live;
    }
    forall i, j | 0 <= i < j < |live| ensures !Keyed(live[i].source, live[i].id)(live[j]) {
      var a, b := FilterPair(slots, p, i, j);
    }
  }

  lemma PushOk(slots: seq<Assembly>, c: Limits, b: Assembly)
    requires TableOk(slots, c) && WellFormed(b) && First(slots, Keyed(b.source, b.id)) == |slots|
    ensures TableOk(MakeRoom(slots, c) + [b], c)
  {
    hide WellFormed;
    var room := MakeRoom(slots, c);
    if room != slots { RemoveOk(slots, c, Oldest(slots)); }
    forall i | 0 <= i < |room| ensures !Keyed(b.source, b.id)(room[i]) {
      assert room[i] in slots;
    }
    assert forall i :: 0 <= i < |room| ==> !Keyed(room[i].source, room[i].id)(b);
  }

  lemma SettleOk(t: Table, c: Limits, slots: seq<Assembly>, at: nat, f: Fragment, now: nat)
    requires TableOk(slots, c) && at < |slots| && Sound(f, c)
    ensures TableOk(Settle(t, slots, at, f, now).slots, c)
  {
    hide WellFormed, Put, TableOk;
    RemoveOk(slots, c, at);
    if slots[at].total == f.total && slots[at].count == f.count {
      assert WellFormed(slots[at]) by { SlotOk(slots, c, at); }
      PutKeeps(slots[at], f, now);
      UpdateOk(slots, c, at, Put(slots[at], f, now));
    }
  }

  lemma SlotOk(slots: seq<Assembly>, c: Limits, at: nat)
    requires TableOk(slots, c) && at < |slots|
    ensures WellFormed(slots[at])
  {
  }

  /** Keys stay unique and the table within its maximum, whatever arrives. */
  lemma HandleOk(t: Table, c: Limits, source: Addr, data: Bytes, now: nat)
    requires TableOk(t.slots, c)
    ensures TableOk(Handle(t, c, source, data, now).slots, c)
  {
    hide Parse, TableOk, Settle, Filter, MakeRoom, WellFormed, Blank;
    match Parse(data, c)
    case None =>
    case Some(f) =>
      if f.count > 1 {
        var live := Filter(t.slots, Alive(c, now));
        FilterOk(t.slots, c, Alive(c, now));
        var at := First(live, Keyed(source, f.id));
        if at < |live| {
          SettleOk(t, c, live, at, f, now);
        } else {
          BlankWellFormed(c, source, f, now);
          BlankKey(c, source, f, now);
          PushOk(live, c, Blank(c, source, f, now));
          SettleOk(t, c, MakeRoom(live, c) + [Blank(c, source, f, now)], |MakeRoom(live, c)|, f, now);
        }
      }
  }

  lemma BlankKey(c: Limits, source: Addr, f: Fragment, now: nat)
    ensures var b := Blank(c, source, f, now);
            b.source == source && b.id == f.id && b.total == f.total && b.count == f.count
  {
  }

  /** Eviction takes an entry that no other entry is older than, and only when there is no room. */
  lemma EvictsLeastRecent(slots: seq<Assembly>, c: Limits)
    ensures var room := MakeRoom(slots, c);
            if |slots| < c.maxReassemblies || slots == [] then room == slots
            else exists k :: 0 <= k < |slots| && room == Remove(slots, k)
                   && forall j :: 0 <= j < |slots| ==> slots[k].updated <= slots[j].updated
  {
    if |slots| >= c.maxReassemblies && slots != [] {
      var k := Oldest(slots);
      assert slots[k].updated <= slots[0].updated && MakeRoom(slots, c) == Remove(slots, k);
    }
  }

  // ---------------------------------------------------------------- provenance

  datatype Arrival = Arrival(source: Addr, data: Bytes, now: nat)

  function Run(t: Table, c: Limits, arrivals: seq<Arrival>): Table {
    if arrivals == [] then t
    else
      var a := arrivals[|arrivals| - 1];
      Handle(Run(t, c, arrivals[..|arrivals| - 1]), c, a.source, a.data, a.now)
  }

  function Fresh(hasReceiver: bool): Table { Table([], hasReceiver, []) }

  /** The fragment has arrived from `source`. */
  ghost predicate Got(arrivals: seq<Arrival>, c: Limits, source: Addr, f: Fragment) {
    exists j :: 0 <= j < |arrivals| && arrivals[j].source == source && Parse(arrivals[j].data, c) == Some(f)
  }

  lemma GotMore(arrivals: seq<Arrival>, a: Arrival, c: Limits)
    ensures forall source, f :: Got(arrivals, c, source, f) ==> Got(arrivals + [a], c, source, f)
    ensures Parse(a.data, c).Some? ==> Got(arrivals + [a], c, a.source, Parse(a.data, c).value)
  {
    hide Parse;
    var more := arrivals + [a];
    forall source, f | Got(arrivals, c, source, f) ensures Got(more, c, source, f) {
      var j :| 0 <= j < |arrivals| && arrivals[j].source == source && Parse(arrivals[j].data, c) == Some(f);
      assert more[j] == arrivals[j];
    }
    assert more[|arrivals|] == a;
  }

  /** Range `i` of the buffer holds the bytes of fragment `i`, which arrived under this name and shape. */
  ghost predicate Backed(arrivals: seq<Arrival>, c: Limits, source: Addr, id: U64, count: nat, buffer: Bytes, i: nat) {
    exists data: Bytes ::
      && Got(arrivals, c, source, Fragment(id, i, count, |buffer|, data)) && |data| <= CAPACITY
      && Start(CAPACITY, i) + |data| <= |buffer| && buffer[Start(CAPACITY, i)..Start(CAPACITY, i) + |data|] == data
  }

  ghost predicate SlotBacked(arrivals: seq<Arrival>, c: Limits, a: Assembly) {
    forall i :: i in Indices(a.bits) ==> Backed(arrivals, c, a.source, a.id, a.count, a.buffer, i)
  }

  ghost predicate DeliveryBacked(arrivals: seq<Arrival>, c: Limits, d: Delivery) {
    && d.count > 0 && |d.packet.bytes| > 0
    && forall i :: 0 <= i < d.count ==> Backed(arrivals, c, d.source, d.packet.id, d.count, d.packet.bytes, i)
  }

  ghost predicate Genuine(arrivals: seq<Arrival>, c: Limits, t: Table) {
    && TableOk(t.slots, c)
    && (forall a :: a in t.slots ==> SlotBacked(arrivals, c, a) && a.total > 0)
    && forall d :: d in t.delivered ==> DeliveryBacked(arrivals, c, d)
  }

  /** Writing one range leaves every other one alone. */
  lemma BackedElsewhere(arrivals: seq<Arrival>, c: Limits, source: Addr, id: U64, count: nat, buffer: Bytes, i: nat,
                        f: Fragment)
    requires Backed(arrivals, c, source, id, count, buffer, i) && i != f.index && |f.data| <= CAPACITY
    requires Start(CAPACITY, f.index) + |f.data| <= |buffer|
    ensures Backed(arrivals, c, source, id, count, Overwrite(buffer, Start(CAPACITY, f.index), f.data), i)
  {
    hide Got;
    var data: Bytes :|
      && Got(arrivals, c, source, Fragment(id, i, count, |buffer|, data)) && |data| <= CAPACITY
      && Start(CAPACITY, i) + |data| <= |buffer| && buffer[Start(CAPACITY, i)..Start(CAPACITY, i) + |data|] == data;
    if i < f.index { Steps(CAPACITY, i, f.index); } else { Steps(CAPACITY, f.index, i); }
    var b := Overwrite(buffer, Start(CAPACITY, f.index), f.data);
    assert b[Start(CAPACITY, i)..Start(CAPACITY, i) + |data|] == data;
  }

  lemma PutBacked(arrivals: seq<Arrival>, c: Limits, a: Assembly, source: Addr, f: Fragment, now: nat)
    requires WellFormed(a) && SlotBacked(arrivals, c, a) && Sound(f, c) && Got(arrivals, c, source, f)
    requires a.source == source && a.id == f.id && a.total == f.total && a.count == f.count
    ensures SlotBacked(arrivals, c, Put(a, f, now))
  {
    hide Got, Indices, WellFormed;
    PutKeeps(a, f, now);
    if !IsReceived(a.bits, f.index) {
      var b := Put(a, f, now);
      forall i | i in Indices(b.bits) ensures Backed(arrivals, c, b.source, b.id, b.count, b.buffer, i) {
        if i == f.index {
          assert b.buffer[Start(CAPACITY, i)..Start(CAPACITY, i) + |f.data|] == f.data;
        } else {
          BackedElsewhere(arrivals, c, a.source, a.id, a.count, a.buffer, i, f);
        }
      }
    }
  }

  lemma BackedMore(arrivals: seq<Arrival>, x: Arrival, c: Limits, source: Addr, id: U64, count: nat, buffer: Bytes,
                   i: nat)
    requires Backed(arrivals, c, source, id, count, buffer, i)
    ensures Backed(arrivals + [x], c, source, id, count, buffer, i)
  {
    hide Got;
    GotMore(arrivals, x, c);
  }

  lemma GenuineMore(arrivals: seq<Arrival>, x: Arrival, c: Limits, t: Table)
    requires Genuine(arrivals, c, t)
    ensures Genuine(arrivals + [x], c, t)
  {
    hide Backed, TableOk;
    forall a, i | a in t.slots && i in Indices(a.bits)
      ensures Backed(arrivals + [x], c, a.source, a.id, a.count, a.buffer, i) {
      BackedMore(arrivals, x, c, a.source, a.id, a.count, a.buffer, i);
    }
    forall d: Delivery, i: nat | d in t.delivered && 0 <= i < d.count
      ensures Backed(arrivals + [x], c, d.source, d.packet.id, d.count, d.packet.bytes, i)
    {
      BackedMore(arrivals, x, c, d.source, d.packet.id, d.count, d.packet.bytes, i);
    }
  }

  /** A full slot is a backed delivery. */
  lemma FullBacked(arrivals: seq<Arrival>, c: Limits, b: Assembly, i: nat)
    requires WellFormed(b) && SlotBacked(arrivals, c, b) && b.receivedCount == b.count && i < b.count && b.total > 0
    ensures DeliveryBacked(arrivals, c, Delivery(b.source, b.count, Packet(b.id, b.buffer)))
  {
    hide Backed;
    CountMeansAll(Indices(b.bits), b.count);
  }

  lemma SettleGenuine(arrivals: seq<Arrival>, c: Limits, t: Table, slots: seq<Assembly>, at: nat, f: Fragment, now: nat)
    requires TableOk(slots, c) && at < |slots| && Sound(f, c) && Got(arrivals, c, slots[at].source, f)
             && f.id == slots[at].id
    requires forall a :: a in slots ==> SlotBacked(arrivals, c, a) && a.total > 0
    requires forall d :: d in t.delivered ==> DeliveryBacked(arrivals, c, d)
    ensures Genuine(arrivals, c, Settle(t, slots, at, f, now))
  {
    hide Got, TableOk, SlotBacked, DeliveryBacked, Put, WellFormed;
    SettleOk(t, c, slots, at, f, now);
    SlotOk(slots, c, at);
    assert forall x :: x in Remove(slots, at) ==> x in slots;
    var a := slots[at];
    assert a in slots;
    if a.total == f.total && a.count == f.count {
      PutKeeps(a, f, now);
      PutBacked(arrivals, c, a, a.source, f, now);
      var b := Put(a, f, now);
      assert forall x :: x in slots[at := b] ==> x in slots || x == b;
      if b.receivedCount == b.count { FullBacked(arrivals, c, b, f.index); }
    }
  }

  lemma BlankBacked(arrivals: seq<Arrival>, c: Limits, source: Addr, f: Fragment, now: nat)
    requires Sound(f, c)
    ensures SlotBacked(arrivals, c, Blank(c, source, f, now))
  {
    hide Backed;
    BlankWellFormed(c, source, f, now);
  }

  lemma RoomInside(slots: seq<Assembly>, c: Limits)
    ensures forall a :: a in MakeRoom(slots, c) ==> a in slots
  {
  }

  lemma HandleGenuine(arrivals: seq<Arrival>, c: Limits, t: Table, source: Addr, f: Fragment, now: nat)
    requires Genuine(arrivals, c, t) && Sound(f, c) && Got(arrivals, c, source, f)
    ensures Genuine(arrivals, c, HandleFragment(t, c, source, f, now))
  {
    hide Got, TableOk, SlotBacked, DeliveryBacked, Settle, Filter, MakeRoom, Blank, WellFormed;
    if f.count == 1 {
      if |f.data| == f.total { SingleBacked(arrivals, c, source, f); }
    } else {
      var live := Filter(t.slots, Alive(c, now));
      FilterOk(t.slots, c, Alive(c, now));
      var at := First(live, Keyed(source, f.id));
      if at < |live| {
        SettleGenuine(arrivals, c, t, live, at, f, now);
      } else {
        var room, blank := MakeRoom(live, c), Blank(c, source, f, now);
        BlankWellFormed(c, source, f, now);
        BlankKey(c, source, f, now);
        BlankBacked(arrivals, c, source, f, now);
        PushOk(live, c, blank);
        RoomInside(live, c);
        SettleGenuine(arrivals, c, t, room + [blank], |room|, f, now);
      }
    }
  }

  lemma SingleBacked(arrivals: seq<Arrival>, c: Limits, source: Addr, f: Fragment)
    requires Sound(f, c) && Got(arrivals, c, source, f) && f.count == 1 && |f.data| == f.total
    ensures DeliveryBacked(arrivals, c, Delivery(source, 1, Packet(f.id, f.data)))
  {
    hide Got;
    assert f == Fragment(f.id, 0, 1, |f.data|, f.data);
    assert f.data[Start(CAPACITY, 0)..Start(CAPACITY, 0) + |f.data|] == f.data;
  }

  /**
   * Provenance. Whatever arrives, from anyone, at any time: keys stay unique, the table
   * within its maximum, and every range of a delivered packet holds the bytes of a fragment
   * that arrived from that source under that identifier, count and length.
   */
  lemma {:induction false} PacketsAreGenuine(c: Limits, hasReceiver: bool, arrivals: seq<Arrival>)
    ensures Genuine(arrivals, c, Run(Fresh(hasReceiver), c, arrivals))
  {
    hide Genuine, HandleFragment, Parse, Got;
    if arrivals == [] {
      NothingGenuine(c, hasReceiver);
    } else {
      var n := |arrivals| - 1;
      var front, a := arrivals[..n], arrivals[n];
      PacketsAreGenuine(c, hasReceiver, front);
      assert arrivals == front + [a];
      var t := Run(Fresh(hasReceiver), c, front);
      GenuineMore(front, a, c, t);
      GotMore(front, a, c);
      if Parse(a.data, c).Some? { HandleGenuine(arrivals, c, t, a.source, Parse(a.data, c).value, a.now); }
    }
  }

  lemma NothingGenuine(c: Limits, hasReceiver: bool)
    ensures Genuine([], c, Fresh(hasReceiver))
  {
  }

  /** Every fragment that arrived is a piece of what its source sent under that identifier. */
  ghost predicate Honest(arrivals: seq<Arrival>, c: Limits, sent: (Addr, U64) -> Packet) {
    forall source, f :: Got(arrivals, c, source, f) ==>
      var m := sent(source, f.id);
      f.index < Pieces(m) && f == Piece(m, f.index)
  }

  lemma HonestPart(arrivals: seq<Arrival>, c: Limits, sent: (Addr, U64) -> Packet, d: Delivery, i: nat)
    requires Honest(arrivals, c, sent) && Backed(arrivals, c, d.source, d.packet.id, d.count, d.packet.bytes, i)
    ensures var m := sent(d.source, d.packet.id);
            d.count == Pieces(m) && m.id == d.packet.id && Holds(d.packet.bytes, m.bytes, CAPACITY, i)
  {
    hide Got, Chunk;
    var bytes := d.packet.bytes;
    var data: Bytes :|
      && Got(arrivals, c, d.source, Fragment(d.packet.id, i, d.count, |bytes|, data)) && |data| <= CAPACITY
      && Start(CAPACITY, i) + |data| <= |bytes| && bytes[Start(CAPACITY, i)..Start(CAPACITY, i) + |data|] == data;
    assert Fragment(d.packet.id, i, d.count, |bytes|, data).id == d.packet.id;
  }

  /** With honest senders every delivered packet is one that was sent. */
  lemma HonestPackets(c: Limits, hasReceiver: bool, arrivals: seq<Arrival>, sent: (Addr, U64) -> Packet, d: Delivery)
    requires Honest(arrivals, c, sent) && d in Run(Fresh(hasReceiver), c, arrivals).delivered
    ensures d.packet == sent(d.source, d.packet.id)
  {
    hide Got, Run, Backed, Holds;
    PacketsAreGenuine(c, hasReceiver, arrivals);
    assert DeliveryBacked(arrivals, c, d);
    var m := sent(d.source, d.packet.id);
    HonestPart(arrivals, c, sent, d, 0);
    forall i | i in AllIndices(Pieces(m)) ensures Holds(d.packet.bytes, m.bytes, CAPACITY, i) {
      HonestPart(arrivals, c, sent, d, i);
    }
    assert |d.packet.bytes| == |m.bytes| by { HoldsSize(d.packet.bytes, m.bytes, 0); }
    BufferIsPayload(d.packet.bytes, m.bytes, CAPACITY);
  }

  lemma HoldsSize(buffer: Bytes, payload: Bytes, i: nat)
    requires Holds(buffer, payload, CAPACITY, i)
    ensures |buffer| == |payload|
  {
  }

  // ---------------------------------------------------------------- any order

  ghost predicate HasKey(slots: seq<Assembly>, source: Addr, id: U64) {
    exists i :: 0 <= i < |slots| && Keyed(source, id)(slots[i])
  }

  /** The entry holds the pieces `seen` of `m`, each in its place. */
  ghost predicate Collects(a: Assembly, m: Packet, seen: set<nat>) {
    && a.total == |m.bytes| && a.count == Pieces(m) && Indices(a.bits) == seen
    && HoldsAll(a.buffer, m.bytes, CAPACITY, seen)
  }

  /** The table holds exactly the pieces `seen` of `m` from `source`. */
  ghost predicate Gathers(slots: seq<Assembly>, source: Addr, m: Packet, seen: set<nat>) {
    && (HasKey(slots, source, m.id) <==> seen != {})
    && forall i :: 0 <= i < |slots| && Keyed(source, m.id)(slots[i]) ==> Collects(slots[i], m, seen)
  }

  lemma GathersFilter(slots: seq<Assembly>, source: Addr, m: Packet, seen: set<nat>, p: Assembly -> bool)
    requires Gathers(slots, source, m, seen)
    requires forall i :: 0 <= i < |slots| && Keyed(source, m.id)(slots[i]) ==> p(slots[i])
    ensures Gathers(Filter(slots, p), source, m, seen)
  {
    hide Collects, Filter;
    var live := Filter(slots, p);
    forall i | 0 <= i < |live| ensures live[i] in slots {
      assert live[i] in live;
    }
    if seen != {} {
      var i :| 0 <= i < |slots| && Keyed(source, m.id)(slots[i]);
      assert slots[i] in slots && slots[i] in live;
    }
  }

  lemma GathersRemove(slots: seq<Assembly>, source: Addr, m: Packet, seen: set<nat>, at: nat)
    requires Gathers(slots, source, m, seen) && at < |slots| && !Keyed(source, m.id)(slots[at])
    ensures Gathers(Remove(slots, at), source, m, seen)
  {
    hide Collects;
    var r := Remove(slots, at);
    forall i | 0 <= i < |r| ensures r[i] == slots[if i < at then i else i + 1] {
    }
    if seen != {} {
      var i :| 0 <= i < |slots| && Keyed(source, m.id)(slots[i]);
      assert r[if i < at then i else i - 1] == slots[i];
    }
  }

  lemma GathersUpdate(slots: seq<Assembly>, source: Addr, m: Packet, seen: set<nat>, at: nat, b: Assembly)
    requires Gathers(slots, source, m, seen) && at < |slots| && !Keyed(source, m.id)(slots[at])
             && !Keyed(source, m.id)(b)
    ensures Gathers(slots[at := b], source, m, seen)
  {
    hide Collects;
    if seen != {} {
      var i :| 0 <= i < |slots| && Keyed(source, m.id)(slots[i]);
      assert slots[at := b][i] == slots[i];
    }
  }

  lemma GathersPush(slots: seq<Assembly>, source: Addr, m: Packet, seen: set<nat>, b: Assembly)
    requires Gathers(slots, source, m, seen) && !Keyed(source, m.id)(b)
    ensures Gathers(slots + [b], source, m, seen)
  {
    hide Collects;
    if seen != {} {
      var i :| 0 <= i < |slots| && Keyed(source, m.id)(slots[i]);
      assert (slots + [b])[i] == slots[i];
    }
  }

  /** What lines 361-389 do for another name. */
  lemma OtherSettles(t: Table, c: Limits, slots: seq<Assembly>, at: nat, f: Fragment, now: nat, source: Addr,
                     m: Packet, seen: set<nat>)
    requires Gathers(slots, source, m, seen) && TableOk(slots, c) && at < |slots| && Sound(f, c)
    requires !Keyed(source, m.id)(slots[at])
    ensures var u := Settle(t, slots, at, f, now);
            && Gathers(u.slots, source, m, seen)
            && Named(u.delivered, source, m.id) == Named(t.delivered, source, m.id) && u.hasReceiver == t.hasReceiver
  {
    hide Gathers, Put, TableOk, Named;
    GathersRemove(slots, source, m, seen, at);
    SlotOk(slots, c, at);
    var a := slots[at];
    if a.total == f.total && a.count == f.count {
      PutKeeps(a, f, now);
      var b := Put(a, f, now);
      GathersUpdate(slots, source, m, seen, at, b);
      NamedOne(t.delivered, Delivery(b.source, b.count, Packet(b.id, b.buffer)), source, m.id);
    }
  }

  /** The packets delivered under one name. */
  function Named(ds: seq<Delivery>, source: Addr, id: U64): seq<Bytes> {
    if ds == [] then []
    else
      var last := ds[|ds| - 1];
      Named(ds[..|ds| - 1], source, id)
      + if last.source == source && last.packet.id == id then [last.packet.bytes] else []
  }

  lemma NamedOne(ds: seq<Delivery>, d: Delivery, source: Addr, id: U64)
    ensures Named(ds + [d], source, id)
         == Named(ds, source, id) + if d.source == source && d.packet.id == id then [d.packet.bytes] else []
  {
    assert (ds + [d])[..|ds|] == ds;
  }

  lemma PutCollects(a: Assembly, m: Packet, seen: set<nat>, i: nat, now: nat)
    requires WellFormed(a) && Collects(a, m, seen) && i < Pieces(m)
    ensures Start(CAPACITY, i) + |Piece(m, i).data| <= a.total
    ensures Collects(Put(a, Piece(m, i), now), m, seen + {i})
  {
    hide Indices, Chunk;
    CopyKeeps(a.buffer, m.bytes, CAPACITY, seen, i);
    PutKeeps(a, Piece(m, i), now);
    if IsReceived(a.bits, i) { assert seen + {i} == seen; }
  }

  lemma CollectedAll(b: Assembly, m: Packet, seen: set<nat>)
    requires WellFormed(b) && Collects(b, m, seen)
    ensures b.receivedCount == b.count <==> seen == AllIndices(Pieces(m))
    ensures seen == AllIndices(Pieces(m)) ==> b.buffer == m.bytes
  {
    hide Indices, Chunk;
    CountMeansAll(seen, Pieces(m));
    if seen == AllIndices(Pieces(m)) { BufferIsPayload(b.buffer, m.bytes, CAPACITY); }
  }

  /** What lines 361-389 do for a piece of `m`. */
  lemma OwnSettles(t: Table, c: Limits, slots: seq<Assembly>, at: nat, i: nat, now: nat, source: Addr, m: Packet,
                   seen: set<nat>)
    requires TableOk(slots, c) && at < |slots| && i < Pieces(m) && Sound(Piece(m, i), c)
    requires Keyed(source, m.id)(slots[at]) && Collects(slots[at], m, seen) && t.hasReceiver
    ensures var u, seen2 := Settle(t, slots, at, Piece(m, i), now), seen + {i};
            && Gathers(u.slots, source, m, if seen2 == AllIndices(Pieces(m)) then {} else seen2)
            && Named(u.delivered, source, m.id)
               == Named(t.delivered, source, m.id) + (if seen2 == AllIndices(Pieces(m)) then [m.bytes] else [])
            && u.hasReceiver
  {
    hide Put, WellFormed, Collects, Named, AllIndices, Chunk, ChunkCount;
    SlotOk(slots, c, at);
    var a, f := slots[at], Piece(m, i);
    CollectsShape(a, m, seen);
    PutKeeps(a, f, now);
    PutCollects(a, m, seen, i, now);
    var b := Put(a, f, now);
    CollectedAll(b, m, seen + {i});
    OwnWritten(slots, c, at, b, source, m, seen + {i});
    NamedOne(t.delivered, Delivery(b.source, b.count, Packet(b.id, b.buffer)), source, m.id);
  }

  lemma CollectsShape(a: Assembly, m: Packet, seen: set<nat>)
    requires Collects(a, m, seen)
    ensures a.total == |m.bytes| && a.count == Pieces(m)
  {
  }

  lemma OwnWritten(slots: seq<Assembly>, c: Limits, at: nat, b: Assembly, source: Addr, m: Packet, seen: set<nat>)
    requires TableOk(slots, c) && at < |slots| && Keyed(source, m.id)(slots[at]) && seen != {}
    ensures Gathers(Remove(slots, at), source, m, {})
    ensures Keyed(source, m.id)(b) && Collects(b, m, seen) ==> Gathers(slots[at := b], source, m, seen)
  {
    hide WellFormed, Collects;
    var r := Remove(slots, at);
    forall i | 0 <= i < |r| ensures r[i] == slots[if i < at then i else i + 1] {
    }
    assert slots[at := b][at] == b;
  }

  // ---------------------------------------------------------------- fair traffic

  predicate Concerns(a: Arrival, c: Limits, source: Addr, id: U64) {
    a.source == source && Parse(a.data, c).Some? && Parse(a.data, c).value.id == id
  }

  function IndexIn(a: Arrival, c: Limits): nat { if Parse(a.data, c).Some? then Parse(a.data, c).value.index else 0 }

  /**
   * A frame under the name of `m` is one of its pieces; no frame comes so late that the
   * entry of `m` has expired, or makes the table evict it.
   */
  ghost predicate Fair(t: Table, c: Limits, a: Arrival, source: Addr, m: Packet) {
    Parse(a.data, c).Some? ==>
      var f := Parse(a.data, c).value;
      && (Concerns(a, c, source, m.id) ==> f.index < Pieces(m) && f == Piece(m, f.index))
      && (f.count > 1 ==> Spared(t.slots, c, a.source, f.id, a.now, source, m.id))
  }

  ghost predicate Spared(slots: seq<Assembly>, c: Limits, from: Addr, id: U64, now: nat, source: Addr, own: U64) {
    && (forall i :: 0 <= i < |slots| && Keyed(source, own)(slots[i]) ==>
          now <= slots[i].updated || now - slots[i].updated <= c.timeout)
    && var live := Filter(slots, Alive(c, now));
       First(live, Keyed(from, id)) == |live| && |live| >= c.maxReassemblies && live != [] ==>
         !Keyed(source, own)(live[Oldest(live)])
  }

  lemma RoomGathers(live: seq<Assembly>, c: Limits, source: Addr, m: Packet, seen: set<nat>)
    requires Gathers(live, source, m, seen)
    requires |live| >= c.maxReassemblies && live != [] ==> !Keyed(source, m.id)(live[Oldest(live)])
    ensures Gathers(MakeRoom(live, c), source, m, seen)
  {
    hide Gathers;
    if |live| >= c.maxReassemblies && live != [] { GathersRemove(live, source, m, seen, Oldest(live)); }
  }

  lemma OtherFrame(t: Table, c: Limits, from: Addr, f: Fragment, now: nat, source: Addr, m: Packet, seen: set<nat>)
    requires TableOk(t.slots, c) && Gathers(t.slots, source, m, seen) && Sound(f, c)
             && !(from == source && f.id == m.id)
    requires f.count > 1 ==> Spared(t.slots, c, from, f.id, now, source, m.id)
    ensures var u := HandleFragment(t, c, from, f, now);
            && Gathers(u.slots, source, m, seen)
            && Named(u.delivered, source, m.id) == Named(t.delivered, source, m.id) && u.hasReceiver == t.hasReceiver
  {
    hide TableOk, Gathers, Settle, Filter, MakeRoom, Named, WellFormed, Blank, Oldest;
    if f.count == 1 {
      NamedOne(t.delivered, Delivery(from, 1, Packet(f.id, f.data)), source, m.id);
    } else {
      var live := Filter(t.slots, Alive(c, now));
      FilterOk(t.slots, c, Alive(c, now));
      GathersFilter(t.slots, source, m, seen, Alive(c, now));
      var at := First(live, Keyed(from, f.id));
      if at < |live| {
        OtherSettles(t, c, live, at, f, now, source, m, seen);
      } else {
        var room, blank := MakeRoom(live, c), Blank(c, from, f, now);
        BlankWellFormed(c, from, f, now);
        BlankKey(c, from, f, now);
        PushOk(live, c, blank);
        RoomGathers(live, c, source, m, seen);
        GathersPush(room, source, m, seen, blank);
        OtherSettles(t, c, room + [blank], |room|, f, now, source, m, seen);
      }
    }
  }

  lemma BlankCollects(c: Limits, source: Addr, m: Packet, i: nat, now: nat)
    requires i < Pieces(m) && Sound(Piece(m, i), c)
    ensures Collects(Blank(c, source, Piece(m, i), now), m, {})
  {
    BlankWellFormed(c, source, Piece(m, i), now);
  }

  lemma FoundCollects(live: seq<Assembly>, source: Addr, m: Packet, seen: set<nat>)
    requires Gathers(live, source, m, seen)
    ensures var at := First(live, Keyed(source, m.id));
            if at < |live| then Collects(live[at], m, seen) else seen == {}
  {
    hide Collects;
  }

  lemma OwnFrame(t: Table, c: Limits, i: nat, now: nat, source: Addr, m: Packet, seen: set<nat>)
    requires TableOk(t.slots, c) && Gathers(t.slots, source, m, seen) && t.hasReceiver
    requires i < Pieces(m) && Sound(Piece(m, i), c) && (Pieces(m) == 1 ==> seen == {})
    requires Pieces(m) > 1 ==> Spared(t.slots, c, source, m.id, now, source, m.id)
    ensures var u, seen2 := HandleFragment(t, c, source, Piece(m, i), now), seen + {i};
            && Gathers(u.slots, source, m, if seen2 == AllIndices(Pieces(m)) then {} else seen2)
            && Named(u.delivered, source, m.id)
               == Named(t.delivered, source, m.id) + (if seen2 == AllIndices(Pieces(m)) then [m.bytes] else [])
            && u.hasReceiver
  {
    hide TableOk, Gathers, Settle, Filter, MakeRoom, Named, WellFormed, Blank, Collects, Chunk, ChunkCount, Spared;
    var f := Piece(m, i);
    if Pieces(m) == 1 {
      WholeChunk(m, i);
      NamedOne(t.delivered, Delivery(source, 1, Packet(m.id, f.data)), source, m.id);
    } else {
      var live := Filter(t.slots, Alive(c, now));
      FilterOk(t.slots, c, Alive(c, now));
      assert Gathers(live, source, m, seen) by { SparedFilter(t.slots, c, source, m.id, now, source, m, seen); }
      FoundCollects(live, source, m, seen);
      var at := First(live, Keyed(source, m.id));
      if at < |live| {
        OwnSettles(t, c, live, at, i, now, source, m, seen);
      } else {
        var room, blank := MakeRoom(live, c), Blank(c, source, f, now);
        BlankWellFormed(c, source, f, now);
        BlankKey(c, source, f, now);
        BlankCollects(c, source, m, i, now);
        PushOk(live, c, blank);
        OwnSettles(t, c, room + [blank], |room|, i, now, source, m, seen);
      }
    }
  }

  lemma SparedFilter(slots: seq<Assembly>, c: Limits, from: Addr, id: U64, now: nat, source: Addr, m: Packet,
                     seen: set<nat>)
    requires Gathers(slots, source, m, seen) && Spared(slots, c, from, id, now, source, m.id)
    ensures Gathers(Filter(slots, Alive(c, now)), source, m, seen)
  {
    hide Gathers, Filter;
    GathersFilter(slots, source, m, seen, Alive(c, now));
  }

  lemma WholeChunk(m: Packet, i: nat)
    requires Pieces(m) == 1 && i < 1
    ensures Chunk(m.bytes, CAPACITY, i) == m.bytes && {} + {i} == AllIndices(1)
  {
    ChunkBounds(|m.bytes|, CAPACITY, i);
  }

  /** What an arrival brings of the packet `id` of `source`. */
  function PieceIn(c: Limits, source: Addr, id: U64): Arrival -> Option<nat> {
    (a: Arrival) => if Concerns(a, c, source, id) then Some(IndexIn(a, c)) else None
  }

  lemma HandleGathers(t: Table, c: Limits, a: Arrival, source: Addr, m: Packet, seen: set<nat>)
    requires TableOk(t.slots, c) && Gathers(t.slots, source, m, seen) && t.hasReceiver && Fair(t, c, a, source, m)
    requires Pieces(m) == 1 ==> seen == {}
    ensures var u := Handle(t, c, a.source, a.data, a.now);
            && Gathers(u.slots, source, m, Collect(seen, PieceIn(c, source, m.id)(a), Pieces(m))) && u.hasReceiver
            && Named(u.delivered, source, m.id)
               == Named(t.delivered, source, m.id)
                 + (if Finishes(seen, PieceIn(c, source, m.id)(a), Pieces(m)) then [m.bytes] else [])
            && (Pieces(m) == 1 ==> Collect(seen, PieceIn(c, source, m.id)(a), Pieces(m)) == {})
  {
    hide HandleFragment, Gathers, TableOk, Named, Parse, Spared, Chunk, AllIndices, ChunkCount;
    if Parse(a.data, c).Some? {
      var f := Parse(a.data, c).value;
      if Concerns(a, c, source, m.id) {
        OwnFrame(t, c, f.index, a.now, source, m, seen);
        if Pieces(m) == 1 { WholeChunk(m, f.index); }
      } else {
        OtherFrame(t, c, a.source, f, a.now, source, m, seen);
      }
    }
  }

  ghost predicate FairRun(t: Table, c: Limits, arrivals: seq<Arrival>, source: Addr, m: Packet) {
    forall i :: 0 <= i < |arrivals| ==> Fair(Run(t, c, arrivals[..i]), c, arrivals[i], source, m)
  }

  /**
   * Any-order delivery. Pieces of a packet may come in any order and any number of times,
   * mixed with any other frames; as long as its entry neither expires nor is evicted, the
   * receiver gets exactly the packet, once for each time the set of pieces became complete.
   */
  lemma {:induction false} PacketRestored(t: Table, c: Limits, arrivals: seq<Arrival>, source: Addr, m: Packet)
    requires TableOk(t.slots, c) && !HasKey(t.slots, source, m.id) && t.hasReceiver
             && FairRun(t, c, arrivals, source, m)
    ensures var u := Run(t, c, arrivals);
            && TableOk(u.slots, c) && u.hasReceiver
            && Named(u.delivered, source, m.id)
               == Named(t.delivered, source, m.id) + Copies(arrivals, PieceIn(c, source, m.id), Pieces(m), m.bytes)
            && Gathers(u.slots, source, m, SeenAfter(arrivals, PieceIn(c, source, m.id), Pieces(m)))
            && (Pieces(m) == 1 ==> SeenAfter(arrivals, PieceIn(c, source, m.id), Pieces(m)) == {})
  {
    hide Handle, Fair, Named, TableOk, Finishes, Collect, Collects, ChunkCount;
    if arrivals != [] {
      hide Gathers;
      var n := |arrivals| - 1;
      var front, a := arrivals[..n], arrivals[n];
      forall i | 0 <= i < n ensures Fair(Run(t, c, front[..i]), c, front[i], source, m) {
        assert front[..i] == arrivals[..i];
      }
      PacketRestored(t, c, front, source, m);
      var u, seen := Run(t, c, front), SeenAfter(front, PieceIn(c, source, m.id), Pieces(m));
      assert Fair(u, c, a, source, m);
      HandleOk(u, c, a.source, a.data, a.now);
      HandleGathers(u, c, a, source, m, seen);
      var more := if Finishes(seen, PieceIn(c, source, m.id)(a), Pieces(m)) then [m.bytes] else [];
      assert Named(t.delivered, source, m.id) + Copies(front, PieceIn(c, source, m.id), Pieces(m), m.bytes) + more
          == Named(t.delivered, source, m.id) + (Copies(front, PieceIn(c, source, m.id), Pieces(m), m.bytes) + more);
    }
  }
}
