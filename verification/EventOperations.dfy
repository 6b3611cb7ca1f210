/**
 * What one Event fragment does to the entries of the receiver, in the terms of the call, and
 * the delivery of packets whose pieces arrive in time
 * (src/ESPressio_ESPNowEventTransport.hpp:265-390).
 */
module EventOperations {
  import opened Bytes
  import opened Chunks
  import opened EventReceiver
  import opened ReceiptBitmap
  import opened Rounds
  import opened Tables

  /** Nothing has come for the entry for longer than the timeout. */
  predicate Stale(a: Assembly, c: Limits, now: nat) { now > a.updated && now - a.updated > c.timeout }

  /** There is room for a fragment of this name. */
  ghost predicate Room(slots: seq<Assembly>, c: Limits, source: Addr, id: U64) {
    |slots| < c.maxReassemblies || HasKey(slots, source, id)
  }

  lemma {:induction false} FilterDrops<T>(xs: seq<T>, p: T -> bool, x: T)
    requires x in xs && !p(x)
    ensures |Filter(xs, p)| < |xs|
  {
    var front, last := xs[..|xs| - 1], xs[|xs| - 1];
    assert xs == front + [last];
    if p(last) { FilterDrops(front, p, x); }
  }

  /** With room nothing that is not stale makes way. */
  lemma RoomSuffices(slots: seq<Assembly>, c: Limits, source: Addr, id: U64, now: nat)
    requires TableOk(slots, c) && Room(slots, c, source, id)
    ensures var live := Filter(slots, Alive(c, now));
            First(live, Keyed(source, id)) == |live| ==> MakeRoom(live, c) == live
  {
    hide Oldest, Filter, WellFormed;
    var live := Filter(slots, Alive(c, now));
    if First(live, Keyed(source, id)) == |live| && |slots| >= c.maxReassemblies {
      var i :| 0 <= i < |slots| && Keyed(source, id)(slots[i]);
      assert slots[i] in slots && slots[i] !in live;
      FilterDrops(slots, Alive(c, now), slots[i]);
    }
  }

  /** What `Settle` does to the entries of other names: nothing. */
  lemma SettleSpares(t: Table, slots: seq<Assembly>, at: nat, f: Fragment, now: nat, x: Assembly)
    requires at < |slots| && Start(CAPACITY, f.index) + |f.data| <= f.total
    requires !Keyed(slots[at].source, slots[at].id)(x)
    ensures x in Settle(t, slots, at, f, now).slots <==> x in slots
  {
    hide IsReceived, MarkReceived, Overwrite;
    var u, r := Settle(t, slots, at, f, now).slots, Remove(slots, at);
    if x in slots {
      var i :| 0 <= i < |slots| && slots[i] == x;
      assert r[if i < at then i else i - 1] == x;
      assert u == r || u[i] == x;
    }
  }

  /**
   * The sweep: a fragment of a packet in several pieces removes exactly the entries of other
   * packets whose last fragment came longer ago than the timeout, as long as there is room.
   */
  lemma SweepExactly(t: Table, c: Limits, source: Addr, f: Fragment, now: nat, x: Assembly)
    requires TableOk(t.slots, c) && Sound(f, c) && f.count > 1 && Room(t.slots, c, source, f.id)
    requires x in t.slots && !Keyed(source, f.id)(x)
    ensures x in HandleFragment(t, c, source, f, now).slots <==> !(now > x.updated && now - x.updated > c.timeout)
  {
    hide TableOk, Settle, MakeRoom, Blank, Filter, Room;
    var live := Filter(t.slots, Alive(c, now));
    RoomSuffices(t.slots, c, source, f.id, now);
    var at := First(live, Keyed(source, f.id));
    if at < |live| {
      SettleSpares(t, live, at, f, now, x);
    } else {
      BlankKey(c, source, f, now);
      SettleSpares(t, live + [Blank(c, source, f, now)], |live|, f, now, x);
    }
  }

  /** Without room the least recent entry makes way for a packet not heard of before, and no other. */
  lemma EvictionExactly(t: Table, c: Limits, source: Addr, f: Fragment, now: nat, k: nat, x: Assembly)
    requires TableOk(t.slots, c) && Sound(f, c) && f.count > 1 && !HasKey(t.slots, source, f.id)
    requires forall i :: 0 <= i < |t.slots| ==> !Stale(t.slots[i], c, now)
    requires |t.slots| == c.maxReassemblies && k < |t.slots|
    requires forall i :: 0 <= i < |t.slots| && i != k ==> t.slots[k].updated < t.slots[i].updated
    requires x in t.slots
    ensures x in HandleFragment(t, c, source, f, now).slots <==> x != t.slots[k]
  {
    hide Settle, Blank, WellFormed, Oldest, Filter, TableOk;
    FilterAll(t.slots, Alive(c, now));
    assert Oldest(t.slots) == k;
    FirstIs(t.slots, Keyed(source, f.id), |t.slots|);
    BlankKey(c, source, f, now);
    var i :| 0 <= i < |t.slots| && t.slots[i] == x;
    var room := Remove(t.slots, k);
    SettleSpares(t, room + [Blank(c, source, f, now)], |room|, f, now, x);
    assert x in room <==> x != t.slots[k] by { RemovedOldest(t.slots, k, x); }
  }

  lemma RemovedOldest(slots: seq<Assembly>, k: nat, x: Assembly)
    requires k < |slots| && x in slots
    requires forall i :: 0 <= i < |slots| && i != k ==> slots[k].updated < slots[i].updated
    ensures x in Remove(slots, k) <==> x != slots[k]
  {
    var i :| 0 <= i < |slots| && slots[i] == x;
    if i != k { Moved(slots, k, i); }
    var r := Remove(slots, k);
    assert forall j :: 0 <= j < |r| ==> slots[k].updated < r[j].updated;
  }

  /** A fragment that disagrees with its live entry on size or count costs the packet its entry. */
  lemma DisagreementDrops(t: Table, c: Limits, source: Addr, f: Fragment, now: nat, x: Assembly)
    requires TableOk(t.slots, c) && Sound(f, c) && f.count > 1 && x in t.slots && Keyed(source, f.id)(x)
    requires !Stale(x, c, now) && (x.total != f.total || x.count != f.count)
    ensures var u := HandleFragment(t, c, source, f, now);
            u.delivered == t.delivered && !HasKey(u.slots, source, f.id)
  {
    hide WellFormed, Filter, Put;
    var live := Filter(t.slots, Alive(c, now));
    FilterOk(t.slots, c, Alive(c, now));
    assert x in live;
    var i :| 0 <= i < |live| && live[i] == x;
    FirstIs(live, Keyed(source, f.id), i) by {
      assert forall j :: 0 <= j < i ==> !Keyed(live[j].source, live[j].id)(live[i]);
    }
    var r := Remove(live, i);
    forall j | 0 <= j < |r| ensures !Keyed(source, f.id)(r[j]) {
      var k := if j < i then j else j + 1;
      assert r[j] == live[k];
      if j < i {
        assert !Keyed(live[k].source, live[k].id)(live[i]);
      } else {
        assert !Keyed(live[i].source, live[i].id)(live[k]);
      }
    }
  }

  /** Without a receiver packets are put together all the same, and then dropped. */
  lemma NothingWithoutReceiver(t: Table, c: Limits, source: Addr, data: Bytes, now: nat)
    requires !t.hasReceiver
    ensures var u, heard := Handle(t, c, source, data, now), Handle(t.(hasReceiver := true), c, source, data, now);
            u.delivered == t.delivered && !u.hasReceiver && u.slots == heard.slots
  {
    hide Parse, Filter, MakeRoom, Blank, Put, First;
  }

  /** A piece that comes after the timeout starts the packet over: the earlier pieces are gone. */
  lemma LatePieceStartsOver(t: Table, c: Limits, source: Addr, m: Packet, i: nat, now: nat, x: Assembly)
    requires TableOk(t.slots, c) && t.hasReceiver && i < Pieces(m) && Pieces(m) > 1 && Sound(Piece(m, i), c)
    requires x in t.slots && Keyed(source, m.id)(x) && now > x.updated && now - x.updated > c.timeout
    ensures var u := HandleFragment(t, c, source, Piece(m, i), now);
            Gathers(u.slots, source, m, {i}) && Named(u.delivered, source, m.id) == Named(t.delivered, source, m.id)
  {
    hide TableOk, Gathers, Settle, Filter, MakeRoom, Named, WellFormed, Blank, Collects, Chunk, ChunkCount;
    var f, live := Piece(m, i), Filter(t.slots, Alive(c, now));
    FilterOk(t.slots, c, Alive(c, now));
    OnlyEntry(t.slots, c, source, m.id, x);
    assert First(live, Keyed(source, m.id)) == |live| by {
      forall j | 0 <= j < |live| ensures !Keyed(source, m.id)(live[j]) {
        assert live[j] in live;
      }
      FirstIs(live, Keyed(source, m.id), |live|);
    }
    var room, blank := MakeRoom(live, c), Blank(c, source, f, now);
    BlankWellFormed(c, source, f, now);
    BlankKey(c, source, f, now);
    BlankCollects(c, source, m, i, now);
    PushOk(live, c, blank);
    OwnSettles(t, c, room + [blank], |room|, i, now, source, m, {});
    assert {} + {i} != AllIndices(Pieces(m)) by {
      assert (if i == 0 then 1 else 0) in AllIndices(Pieces(m));
    }
    assert {} + {i} == {i};
  }

  lemma OnlyEntry(slots: seq<Assembly>, c: Limits, source: Addr, id: U64, x: Assembly)
    requires TableOk(slots, c) && x in slots && Keyed(source, id)(x)
    ensures forall y :: y in slots && Keyed(source, id)(y) ==> y == x
  {
    hide WellFormed;
    var i :| 0 <= i < |slots| && slots[i] == x;
    forall y | y in slots && Keyed(source, id)(y) ensures y == x {
      var j :| 0 <= j < |slots| && slots[j] == y;
    }
  }

  // ---------------------------------------------------------------- pieces in time

  /** When a frame of this name last arrived. */
  function LastHeard(arrivals: seq<Arrival>, c: Limits, source: Addr, id: U64): nat {
    if arrivals == [] then 0
    else if Concerns(arrivals[|arrivals| - 1], c, source, id) then arrivals[|arrivals| - 1].now
    else LastHeard(arrivals[..|arrivals| - 1], c, source, id)
  }

  /** Frames under the name of `m` are its pieces. */
  predicate PiecesOnly(arrivals: seq<Arrival>, c: Limits, source: Addr, m: Packet) {
    forall j :: 0 <= j < |arrivals| && Concerns(arrivals[j], c, source, m.id) ==>
      IndexIn(arrivals[j], c) < Pieces(m) && Parse(arrivals[j].data, c) == Some(Piece(m, IndexIn(arrivals[j], c)))
  }

  /** While `m` is partly there no fragment comes later than the timeout after the last piece of `m`. */
  predicate Timely(arrivals: seq<Arrival>, c: Limits, source: Addr, m: Packet) {
    forall j :: 0 <= j < |arrivals| && SeenAfter(arrivals[..j], PieceIn(c, source, m.id), Pieces(m)) != {} ==>
      var last := LastHeard(arrivals[..j], c, source, m.id);
      arrivals[j].now <= last || arrivals[j].now - last <= c.timeout
  }

  /** No fragment of a new packet finds the table full. */
  ghost predicate RoomAlways(t: Table, c: Limits, arrivals: seq<Arrival>) {
    forall j :: 0 <= j < |arrivals| && Parse(arrivals[j].data, c).Some? ==>
      Room(Run(t, c, arrivals[..j]).slots, c, arrivals[j].source, Parse(arrivals[j].data, c).value.id)
  }

  /** The entry of this name was last touched at `time`. */
  ghost predicate Stamped(slots: seq<Assembly>, source: Addr, id: U64, time: nat) {
    forall a :: a in slots && Keyed(source, id)(a) ==> a.updated == time
  }

  lemma SettleStamps(t: Table, c: Limits, slots: seq<Assembly>, at: nat, f: Fragment, now: nat, source: Addr, id: U64)
    requires TableOk(slots, c) && at < |slots| && Start(CAPACITY, f.index) + |f.data| <= f.total
    requires Keyed(source, id)(slots[at])
    ensures Stamped(Settle(t, slots, at, f, now).slots, source, id, now)
  {
    hide IsReceived, MarkReceived, Overwrite, WellFormed;
    OnlyEntry(slots, c, source, id, slots[at]);
    forall x | x in Remove(slots, at) ensures !Keyed(source, id)(x) {
      OthersDiffer(slots, c, at, x);
    }
    forall j | 0 <= j < |slots| && j != at ensures !Keyed(source, id)(slots[j]) {
      Moved(slots, at, j);
    }
  }

  lemma Moved(slots: seq<Assembly>, at: nat, j: nat)
    requires at < |slots| && j < |slots| && j != at
    ensures slots[j] in Remove(slots, at)
  {
    assert Remove(slots, at)[if j < at then j else j - 1] == slots[j];
  }

  lemma OthersDiffer(slots: seq<Assembly>, c: Limits, at: nat, x: Assembly)
    requires TableOk(slots, c) && at < |slots| && x in Remove(slots, at)
    ensures !Keyed(slots[at].source, slots[at].id)(x)
  {
    hide WellFormed;
    var r := Remove(slots, at);
    var j :| 0 <= j < |r| && r[j] == x;
    if j < at {
      assert !Keyed(slots[j].source, slots[j].id)(slots[at]);
    } else {
      assert !Keyed(slots[at].source, slots[at].id)(slots[j + 1]);
    }
  }

  lemma HandleStamps(t: Table, c: Limits, source: Addr, f: Fragment, now: nat, own: Addr, id: U64, time: nat)
    requires TableOk(t.slots, c) && Sound(f, c) && Stamped(t.slots, own, id, time)
    requires f.count == 1 && source == own && f.id == id ==> !HasKey(t.slots, own, id)
    ensures Stamped(HandleFragment(t, c, source, f, now).slots, own, id,
                    if source == own && f.id == id then now else time)
  {
    hide TableOk, Settle, MakeRoom, Blank, Filter, WellFormed;
    if f.count > 1 {
      var live := Filter(t.slots, Alive(c, now));
      FilterOk(t.slots, c, Alive(c, now));
      var at := First(live, Keyed(source, f.id));
      if at < |live| {
        StampedThrough(t, c, live, at, f, now, own, id, time);
      } else {
        BlankKey(c, source, f, now);
        BlankWellFormed(c, source, f, now);
        PushOk(live, c, Blank(c, source, f, now));
        RoomInside(live, c);
        var room := MakeRoom(live, c);
        var more := room + [Blank(c, source, f, now)];
        forall x | x in more && Keyed(own, id)(x) && !(source == own && f.id == id) ensures x.updated == time {
          assert x in room;
        }
        StampedThrough(t, c, more, |room|, f, now, own, id, time);
      }
    }
  }

  lemma StampedThrough(t: Table, c: Limits, slots: seq<Assembly>, at: nat, f: Fragment, now: nat, own: Addr, id: U64,
                       time: nat)
    requires TableOk(slots, c) && at < |slots| && Start(CAPACITY, f.index) + |f.data| <= f.total
    requires Keyed(own, id)(slots[at]) || Stamped(slots, own, id, time)
    ensures Stamped(Settle(t, slots, at, f, now).slots, own, id, if Keyed(own, id)(slots[at]) then now else time)
  {
    hide TableOk, Settle;
    if Keyed(own, id)(slots[at]) {
      SettleStamps(t, c, slots, at, f, now, own, id);
    } else {
      forall x | x in Settle(t, slots, at, f, now).slots && Keyed(own, id)(x) ensures x in slots {
        SettleSpares(t, slots, at, f, now, x);
      }
    }
  }

  /** Pieces in time and room in the table are all the any-order delivery needs. */
  lemma {:induction false} TimelyIsFair(t: Table, c: Limits, arrivals: seq<Arrival>, source: Addr, m: Packet)
    requires TableOk(t.slots, c) && !HasKey(t.slots, source, m.id) && t.hasReceiver
    requires PiecesOnly(arrivals, c, source, m) && Timely(arrivals, c, source, m) && RoomAlways(t, c, arrivals)
    ensures FairRun(t, c, arrivals, source, m)
    ensures Stamped(Run(t, c, arrivals).slots, source, m.id, LastHeard(arrivals, c, source, m.id))
  {
    hide Handle, TableOk, Gathers, HasKey, Named, Fair, Stamped, Chunk, ChunkCount, Room, SeenAfter, Copies, Concerns;
    if arrivals == [] {
      NoneStamped(t.slots, source, m.id, 0);
    } else {
      var n := |arrivals| - 1;
      var front, a := arrivals[..n], arrivals[n];
      assert forall j :: 0 <= j < n ==> front[..j] == arrivals[..j];
      TimelyIsFair(t, c, front, source, m);
      PacketRestored(t, c, front, source, m);
      LastStep(t, c, arrivals, source, m);
      forall j | 0 <= j < |arrivals| ensures Fair(Run(t, c, arrivals[..j]), c, arrivals[j], source, m) {
        if j < n { assert Fair(Run(t, c, front[..j]), c, front[j], source, m); }
      }
    }
  }

  lemma LastStep(t: Table, c: Limits, arrivals: seq<Arrival>, source: Addr, m: Packet)
    requires arrivals != [] && PiecesOnly(arrivals, c, source, m) && Timely(arrivals, c, source, m)
    requires RoomAlways(t, c, arrivals)
    requires var front := arrivals[..|arrivals| - 1];
             var u, seen := Run(t, c, front), SeenAfter(front, PieceIn(c, source, m.id), Pieces(m));
             && TableOk(u.slots, c) && Gathers(u.slots, source, m, seen) && (Pieces(m) == 1 ==> seen == {})
             && Stamped(u.slots, source, m.id, LastHeard(front, c, source, m.id))
    ensures var front, a := arrivals[..|arrivals| - 1], arrivals[|arrivals| - 1];
            Fair(Run(t, c, front), c, a, source, m)
    ensures Stamped(Run(t, c, arrivals).slots, source, m.id, LastHeard(arrivals, c, source, m.id))
  {
    hide HandleFragment, Parse, TableOk, Gathers, Fair, Stamped, Chunk, ChunkCount, Room, SeenAfter, HasKey;
    var front, a := arrivals[..|arrivals| - 1], arrivals[|arrivals| - 1];
    var u, last := Run(t, c, front), LastHeard(front, c, source, m.id);
    GathersKey(u.slots, source, m, SeenAfter(front, PieceIn(c, source, m.id), Pieces(m)));
    FairNow(u, c, a, source, m, last);
    if Parse(a.data, c).Some? { HandleStamps(u, c, a.source, Parse(a.data, c).value, a.now, source, m.id, last); }
  }

  lemma NoneStamped(slots: seq<Assembly>, source: Addr, id: U64, time: nat)
    requires !HasKey(slots, source, id)
    ensures Stamped(slots, source, id, time)
  {
  }

  lemma GathersKey(slots: seq<Assembly>, source: Addr, m: Packet, seen: set<nat>)
    requires Gathers(slots, source, m, seen)
    ensures HasKey(slots, source, m.id) <==> seen != {}
  {
  }

  lemma FairNow(u: Table, c: Limits, a: Arrival, source: Addr, m: Packet, last: nat)
    requires TableOk(u.slots, c) && Stamped(u.slots, source, m.id, last)
    requires PiecesOnly([a], c, source, m)
    requires Parse(a.data, c).Some? ==> Room(u.slots, c, a.source, Parse(a.data, c).value.id)
    requires HasKey(u.slots, source, m.id) ==> a.now <= last || a.now - last <= c.timeout
    ensures Fair(u, c, a, source, m)
  {
    hide Parse, TableOk, Chunk, ChunkCount, Oldest, Filter, Room;
    if Parse(a.data, c).Some? {
      assert [a][0] == a;
      RoomSuffices(u.slots, c, a.source, Parse(a.data, c).value.id, a.now);
      var live := Filter(u.slots, Alive(c, a.now));
      assert |live| >= c.maxReassemblies && live != [] ==> |MakeRoom(live, c)| < |live|;
      forall i | 0 <= i < |u.slots| && Keyed(source, m.id)(u.slots[i])
        ensures a.now <= u.slots[i].updated || a.now - u.slots[i].updated <= c.timeout {
        assert u.slots[i] in u.slots;
      }
    }
  }

  /**
   * Delivery in time. Pieces of a packet may come in any order and any number of times, mixed
   * with any other frames; if while it is partly there no fragment comes later than the
   * timeout after its last piece, and no new packet finds the table full, then the receiver
   * gets exactly the packet, once for each time the set of pieces became complete.
   */
  lemma PacketRestoredInTime(t: Table, c: Limits, arrivals: seq<Arrival>, source: Addr, m: Packet)
    requires TableOk(t.slots, c) && !HasKey(t.slots, source, m.id) && t.hasReceiver
    requires PiecesOnly(arrivals, c, source, m) && Timely(arrivals, c, source, m) && RoomAlways(t, c, arrivals)
    ensures Named(Run(t, c, arrivals).delivered, source, m.id)
         == Named(t.delivered, source, m.id) + Copies(arrivals, PieceIn(c, source, m.id), Pieces(m), m.bytes)
  {
    hide Run, TableOk, HasKey, PiecesOnly, Timely, RoomAlways, Named, Copies, FairRun, Stamped, Gathers;
    TimelyIsFair(t, c, arrivals, source, m);
    PacketRestored(t, c, arrivals, source, m);
  }

  // ---------------------------------------------------------------- few packets at a time

  /** The packets, by source and identifier, of which anything arrived. */
  ghost function Names(arrivals: seq<Arrival>, c: Limits): (ns: set<(Addr, U64)>)
    ensures forall j :: 0 <= j < |arrivals| && Parse(arrivals[j].data, c).Some? ==>
              (arrivals[j].source, Parse(arrivals[j].data, c).value.id) in ns
  {
    set j | 0 <= j < |arrivals| && Parse(arrivals[j].data, c).Some? ::
      (arrivals[j].source, Parse(arrivals[j].data, c).value.id)
  }

  ghost function Keys(slots: seq<Assembly>): set<(Addr, U64)> {
    set i | 0 <= i < |slots| :: (slots[i].source, slots[i].id)
  }

  lemma {:induction false} KeysCount(slots: seq<Assembly>)
    requires forall i, j :: 0 <= i < j < |slots| ==> !Keyed(slots[i].source, slots[i].id)(slots[j])
    ensures |Keys(slots)| == |slots|
  {
    if slots != [] {
      var front, last := slots[..|slots| - 1], slots[|slots| - 1];
      KeysCount(front);
      forall i | 0 <= i < |front| ensures (front[i].source, front[i].id) != (last.source, last.id) {
        assert !Keyed(slots[i].source, slots[i].id)(slots[|slots| - 1]);
      }
      assert Keys(slots) == Keys(front) + {(last.source, last.id)};
    }
  }

  lemma SettleKeys(t: Table, slots: seq<Assembly>, at: nat, f: Fragment, now: nat)
    requires at < |slots| && Start(CAPACITY, f.index) + |f.data| <= f.total
    ensures Keys(Settle(t, slots, at, f, now).slots) <= Keys(slots)
  {
    hide IsReceived, MarkReceived, Overwrite;
    var u := Settle(t, slots, at, f, now).slots;
    forall i | 0 <= i < |u| ensures (u[i].source, u[i].id) in Keys(slots) {
      var k := if |u| == |slots| || i < at then i else i + 1;
      assert u[i].source == slots[k].source && u[i].id == slots[k].id;
    }
  }

  lemma InsideKeys(xs: seq<Assembly>, slots: seq<Assembly>)
    requires forall x :: x in xs ==> x in slots
    ensures Keys(xs) <= Keys(slots)
  {
    forall i | 0 <= i < |xs| ensures (xs[i].source, xs[i].id) in Keys(slots) {
      assert xs[i] in slots;
      var k :| 0 <= k < |slots| && slots[k] == xs[i];
    }
  }

  lemma HandleKeys(t: Table, c: Limits, source: Addr, f: Fragment, now: nat)
    requires Sound(f, c)
    ensures Keys(HandleFragment(t, c, source, f, now).slots) <= Keys(t.slots) + {(source, f.id)}
  {
    hide Settle, MakeRoom, Blank, Filter, Keys;
    if f.count > 1 {
      var live := Filter(t.slots, Alive(c, now));
      InsideKeys(live, t.slots);
      var at := First(live, Keyed(source, f.id));
      if at < |live| {
        SettleKeys(t, live, at, f, now);
      } else {
        var room, blank := MakeRoom(live, c), Blank(c, source, f, now);
        RoomInside(live, c);
        InsideKeys(room, live);
        BlankKey(c, source, f, now);
        assert Keys(room + [blank]) <= Keys(room) + {(source, f.id)} by { PushKeys(room, blank); }
        SettleKeys(t, room + [blank], |room|, f, now);
      }
    }
  }

  lemma PushKeys(slots: seq<Assembly>, b: Assembly)
    ensures Keys(slots + [b]) == Keys(slots) + {(b.source, b.id)}
  {
    var more := slots + [b];
    assert more[|slots|] == b;
    assert forall i :: 0 <= i < |slots| ==> more[i] == slots[i];
  }

  lemma {:induction false} RunKeys(c: Limits, arrivals: seq<Arrival>)
    ensures TableOk(Run(Fresh(true), c, arrivals).slots, c)
    ensures Keys(Run(Fresh(true), c, arrivals).slots) <= Names(arrivals, c)
  {
    hide HandleFragment, Parse, TableOk, Keys, Names;
    if arrivals == [] {
      assert Keys([]) == {} by { NothingKept(c); }
      NothingKept(c);
    } else {
      var n := |arrivals| - 1;
      var front, a := arrivals[..n], arrivals[n];
      RunKeys(c, front);
      var t := Run(Fresh(true), c, front);
      HandleOk(t, c, a.source, a.data, a.now);
      NamesMore(arrivals, c, n);
      if Parse(a.data, c).Some? { HandleKeys(t, c, a.source, Parse(a.data, c).value, a.now); }
    }
  }

  lemma NothingKept(c: Limits)
    ensures TableOk([], c) && Keys([]) == {}
  {
  }

  lemma NamesMore(arrivals: seq<Arrival>, c: Limits, n: nat)
    requires n <= |arrivals|
    ensures Names(arrivals[..n], c) <= Names(arrivals, c)
  {
    hide Parse;
    assert forall j :: 0 <= j < n ==> arrivals[..n][j] == arrivals[j];
  }

  /** If no more packets are on their way than the table has entries, there is always room. */
  lemma FewNamesFit(c: Limits, arrivals: seq<Arrival>)
    requires |Names(arrivals, c)| <= c.maxReassemblies
    ensures RoomAlways(Fresh(true), c, arrivals)
  {
    hide Parse, Run, Names;
    forall j | 0 <= j < |arrivals| && Parse(arrivals[j].data, c).Some?
      ensures Room(Run(Fresh(true), c, arrivals[..j]).slots, c, arrivals[j].source,
                   Parse(arrivals[j].data, c).value.id) {
      var slots, source, id := Run(Fresh(true), c, arrivals[..j]).slots, arrivals[j].source,
        Parse(arrivals[j].data, c).value.id;
      RunKeys(c, arrivals[..j]);
      NamesMore(arrivals, c, j);
      if !HasKey(slots, source, id) {
        OneMore(slots, c, source, id, Names(arrivals, c));
      }
    }
  }

  lemma OneMore(slots: seq<Assembly>, c: Limits, source: Addr, id: U64, names: set<(Addr, U64)>)
    requires TableOk(slots, c) && Keys(slots) <= names && (source, id) in names && !HasKey(slots, source, id)
    ensures |slots| < |names|
  {
    hide WellFormed;
    KeysCount(slots);
    assert (source, id) !in Keys(slots) by {
      forall i | 0 <= i < |slots| ensures (slots[i].source, slots[i].id) != (source, id) {
        assert !Keyed(source, id)(slots[i]);
      }
    }
    SubsetSize(Keys(slots) + {(source, id)}, names);
  }

  /**
   * The transport's promise in terms of what arrives alone: on a new receiver, with no more
   * packets arriving than the table has entries and pieces in time, each packet is delivered
   * exactly once for each time its pieces became complete.
   */
  lemma PacketDelivered(c: Limits, arrivals: seq<Arrival>, source: Addr, m: Packet)
    requires |Names(arrivals, c)| <= c.maxReassemblies
    requires PiecesOnly(arrivals, c, source, m) && Timely(arrivals, c, source, m)
    ensures Named(Run(Fresh(true), c, arrivals).delivered, source, m.id)
         == Copies(arrivals, PieceIn(c, source, m.id), Pieces(m), m.bytes)
  {
    hide Run, PiecesOnly, Timely, RoomAlways, Copies, Names, Keys;
    FewNamesFit(c, arrivals);
    NothingKept(c);
    PacketRestoredInTime(Fresh(true), c, arrivals, source, m);
  }
}
