/**
 * The Event transport's send loop and frame handler as the source writes them
 * (src/ESPressio_ESPNowEventTransport.hpp:201-239, 265-390): the reassembly table is erased from,
 * evicted from and filled in place.
 */
module EventTransport {
  import opened Bytes
  import opened Chunks
  import opened EventReceiver
  import opened ReceiptBitmap
  import opened Sending
  import opened Tables

  /** The first `k` frames of a packet, addressed. */
  ghost function Stream(to: Addr, m: Packet, k: nat): (ws: seq<Wire>)
    requires k <= Pieces(m)
    ensures |ws| == k
  {
    seq(k, i requires 0 <= i < k => Wire(to, PieceFrame(m, i)))
  }

  class Transport {
    const limits: Limits
    var hasReceiver: bool
    var reassemblies: seq<Assembly>
    var delivered: seq<Delivery>
    var wire: seq<Wire>

    ghost function Model(): Table
      reads this
    {
      Table(reassemblies, hasReceiver, delivered)
    }

    constructor (c: Limits)
      ensures limits == c && Model() == Fresh(false) && wire == []
    {
      limits, hasReceiver, reassemblies, delivered, wire := c, false, [], [], [];
    }

    method SendToDestination(accepts: nat -> bool, to: Addr, m: Packet) returns (ok: bool)
      modifies this`wire
      ensures if Sendable(m, limits) then
                && wire == old(wire) + Stream(to, m, Passed(accepts, |old(wire)|, Pieces(m)))
                && (ok <==> Passed(accepts, |old(wire)|, Pieces(m)) == Pieces(m))
              else !ok && wire == old(wire)
    {
      hide PieceFrame, ChunkCount, MaxFragments;
      if |m.bytes| == 0 || |m.bytes| > limits.maxPacket || |m.bytes| > 0xFFFF_FFFF { return false; }
      PiecesFit(m, limits);
      var count := Pieces(m);
      for index := 0 to count
        invariant Passed(accepts, |old(wire)|, index) == index
        invariant wire == old(wire) + Stream(to, m, index)
      {
        var frame := BuildFrame(m, index);
        if !accepts(|wire|) {
          RefusedAt(accepts, |old(wire)|, index, count);
          return false;
        }
        assert Stream(to, m, index + 1) == Stream(to, m, index) + [Wire(to, frame)];
        wire := wire + [Wire(to, frame)];
      }
      ok := true;
    }

    method BuildFrame(m: Packet, index: nat) returns (frame: Bytes)
      requires index < Pieces(m)
      ensures frame == PieceFrame(m, index)
    {
      hide Pack, Chunk, ChunkCount;
      ChunkSlice(m.bytes, CAPACITY, index);
      var offset := index * CAPACITY;
      var left := |m.bytes| - offset;
      var length := if CAPACITY < left then CAPACITY else left;
      frame := Pack(FIELDS, [MAGIC, VERSION, 0, index, Pieces(m), length, |m.bytes|, m.id])
        + m.bytes[offset..offset + length];
    }

    /** `std::remove_if` over the expired entries. */
    method Expire(now: nat)
      modifies this`reassemblies
      ensures reassemblies == Filter(old(reassemblies), Alive(limits, now))
      ensures forall a :: a in reassemblies <==>
                a in old(reassemblies) && !(now > a.updated && now - a.updated > limits.timeout)
    {
      hide Filter;
      var all, kept: seq<Assembly> := reassemblies, [];
      FilterNone(all, Alive(limits, now));
      for i := 0 to |all|
        invariant kept == Filter(all[..i], Alive(limits, now))
      {
        FilterStep(all, Alive(limits, now), i);
        if !(now > all[i].updated && now - all[i].updated > limits.timeout) {
          kept := kept + [all[i]];
        }
      }
      assert all[..|all|] == all;
      reassemblies := kept;
    }

    method Find(source: Addr, id: U64) returns (i: nat)
      ensures i == First(reassemblies, Keyed(source, id))
    {
      i := 0;
      while i < |reassemblies|
        invariant i <= |reassemblies| && forall j :: 0 <= j < i ==> !Keyed(source, id)(reassemblies[j])
      {
        if reassemblies[i].id == id && reassemblies[i].source == source { break; }
        i := i + 1;
      }
      FirstIs(reassemblies, Keyed(source, id), i);
    }

    /** `std::min_element` */
    method FindOldest() returns (k: nat)
      requires reassemblies != []
      ensures k == Oldest(reassemblies)
    {
      k := 0;
      for i := 1 to |reassemblies|
        invariant k == Oldest(reassemblies[..i])
      {
        assert reassemblies[..i + 1][..i] == reassemblies[..i];
        if reassemblies[i].updated < reassemblies[k].updated { k := i; }
      }
      assert reassemblies[..|reassemblies|] == reassemblies;
    }

    method AddReassembly(source: Addr, f: Fragment, now: nat)
      requires Sound(f, limits)
      modifies this`reassemblies
      ensures reassemblies == MakeRoom(old(reassemblies), limits) + [Blank(limits, source, f, now)]
    {
      hide Oldest, Blank;
      if |reassemblies| >= limits.maxReassemblies && reassemblies != [] {
        var oldest := FindOldest();
        reassemblies := reassemblies[..oldest] + reassemblies[oldest + 1..];
      }
      reassemblies := reassemblies + [Blank(limits, source, f, now)];
    }

    /** Copies, marks and counts one fragment, and hands the packet over when it is complete. */
    method TakeFragment(at: nat, f: Fragment, now: nat)
      requires at < |reassemblies| && Start(CAPACITY, f.index) + |f.data| <= f.total
      modifies this`reassemblies, this`delivered
      ensures Model() == Settle(old(Model()), old(reassemblies), at, f, now)
    {
      var a: Assembly := reassemblies[at];
      if a.total != f.total || a.count != f.count {
        reassemblies := reassemblies[..at] + reassemblies[at + 1..];
        return;
      }
      a := a.(updated := now);
      if !IsReceived(a.bits, f.index) {
        a := a.(buffer := Overwrite(a.buffer, CAPACITY * f.index, f.data), bits := MarkReceived(a.bits, f.index),
                receivedCount := a.receivedCount + 1);
      }
      if a.receivedCount == a.count {
        reassemblies := reassemblies[..at] + reassemblies[at + 1..];
        if hasReceiver { delivered := delivered + [Delivery(a.source, a.count, Packet(a.id, a.buffer))]; }
      } else {
        reassemblies := reassemblies[at := a];
      }
    }

    method HandleFrame(source: Addr, data: Bytes, now: nat)
      modifies this`reassemblies, this`delivered
      ensures Model() == Handle(old(Model()), limits, source, data, now)
    {
      hide Parse, Filter, MakeRoom, Settle, Blank;
      var parsed := Parse(data, limits);
      if parsed.None? { return; }
      var f := parsed.value;
      if f.count == 1 {
        if f.index != 0 || |f.data| != f.total { return; }
        if hasReceiver { delivered := delivered + [Delivery(source, 1, Packet(f.id, f.data))]; }
        return;
      }
      Expire(now);
      var at := Find(source, f.id);
      if at == |reassemblies| {
        AddReassembly(source, f, now);
        at := |reassemblies| - 1;
      }
      SettleFrom(old(Model()), Model(), at, f, now);
      TakeFragment(at, f, now);
    }
  }

  /** Settling replaces the whole table, whatever it was before. */
  lemma SettleFrom(t: Table, u: Table, at: nat, f: Fragment, now: nat)
    requires u == t.(slots := u.slots) && at < |u.slots| && Start(CAPACITY, f.index) + |f.data| <= f.total
    ensures Settle(u, u.slots, at, f, now) == Settle(t, u.slots, at, f, now)
  {
  }
}
