/**
 * The secure transport as the source writes it: eight slots in a fixed array updated in
 * place, one streaming send loop (src/ESPressio_ESPNowSecureTransport.hpp). `Protect` is a
 * parameter of `Send`; what `Unprotect` is given is recorded in `delivered`.
 */
module SecureTransport {
  import opened Bytes
  import opened Chunks
  import opened Rounds
  import opened SecureFragments
  import opened SecureReceiver
  import opened Sending
  import opened Tables

  /** The first `k` frames of `FragmentEnvelope`, addressed. */
  ghost function Stream(to: Addr, m: Sent, k: nat): (ws: seq<Wire>)
    requires Sendable(m) && k <= Pieces(m)
    ensures |ws| == k
  {
    seq(k, i requires 0 <= i < k => Wire(to, PieceFrame(m, i)))
  }

  function DrawId(next: U32): U32 { if next == 0 then 1 else next }

  class Transport {
    var initialized: bool
    const slots: array<Assembly>
    var cursor: nat
    var nextMessageId: U32
    var delivered: seq<Delivery>
    var wire: seq<Wire>

    ghost predicate Valid()
      reads this
    {
      slots.Length == SLOTS
    }

    ghost function Model(): Receiver
      requires Valid()
      reads this, slots
    {
      Receiver(slots[..], cursor, delivered)
    }

    constructor ()
      ensures Valid() && Model() == FRESH && !initialized && nextMessageId == 1 && wire == [] && fresh(slots)
    {
      initialized, cursor, nextMessageId, delivered, wire := false, 0, 1, [], [];
      slots := new Assembly[SLOTS](_ => RESET);
    }

    /** Fragments and sends one protected envelope, one frame at a time. */
    method Send(secured: Option<Bytes>, accepts: nat -> bool, to: Addr, protocol: byte) returns (ok: bool)
      requires Valid()
      modifies this`nextMessageId, this`wire
      ensures Model() == old(Model())
      ensures var m := Sent(protocol, DrawId(old(nextMessageId)), if secured.Some? then secured.value else []);
              if initialized && to != 0 && Sendable(m) then
                && m.id != 0 && nextMessageId == (m.id + 1) % 0x1_0000_0000
                && wire == old(wire) + Stream(to, m, Passed(accepts, |old(wire)|, Pieces(m)))
                && (ok <==> Passed(accepts, |old(wire)|, Pieces(m)) == Pieces(m))
              else !ok && wire == old(wire) && nextMessageId == old(nextMessageId)
    {
      hide PieceFrame;
      if !initialized || to == 0 || secured.None? { return false; }
      if |secured.value| == 0 || |secured.value| > MAX_ENVELOPE { return false; }
      var id := nextMessageId;
      nextMessageId := (nextMessageId + 1) % 0x1_0000_0000;
      if id == 0 {
        id := nextMessageId;
        nextMessageId := (nextMessageId + 1) % 0x1_0000_0000;
      }
      var m := Sent(protocol, id, secured.value);
      ok := Streaming(m, accepts, to);
    }

    method Streaming(m: Sent, accepts: nat -> bool, to: Addr) returns (ok: bool)
      requires Sendable(m)
      modifies this`wire
      ensures wire == old(wire) + Stream(to, m, Passed(accepts, |old(wire)|, Pieces(m)))
      ensures ok <==> Passed(accepts, |old(wire)|, Pieces(m)) == Pieces(m)
    {
      hide PieceFrame, Pieces;
      for index := 0 to Pieces(m)
        invariant Passed(accepts, |old(wire)|, index) == index
        invariant wire == old(wire) + Stream(to, m, index)
      {
        var frame := EncodePiece(m, index);
        if !accepts(|wire|) {
          RefusedAt(accepts, |old(wire)|, index, Pieces(m));
          return false;
        }
        assert Stream(to, m, index + 1) == Stream(to, m, index) + [Wire(to, frame)];
        wire := wire + [Wire(to, frame)];
      }
      ok := true;
    }

    method FindSlot(source: Addr, id: U32) returns (at: nat)
      requires Valid()
      modifies this`cursor, slots
      ensures at == SlotFor(old(Model()), source, id) && Model() == Claim(old(Model()), source, id)
    {
      at := 0;
      while at < SLOTS
        invariant at <= SLOTS && forall j :: 0 <= j < at ==> !Keyed(source, id)(slots[j])
        invariant Model() == old(Model())
      {
        if slots[at].id == id && slots[at].source == source {
          FirstIs(slots[..], Keyed(source, id), at);
          return at;
        }
        at := at + 1;
      }
      FirstIs(slots[..], Keyed(source, id), SLOTS);
      at := 0;
      while at < SLOTS
        invariant at <= SLOTS && forall j :: 0 <= j < at ==> !Free()(slots[j])
        invariant Model() == old(Model())
      {
        if slots[at].id == 0 {
          FirstIs(slots[..], Free(), at);
          return at;
        }
        at := at + 1;
      }
      FirstIs(slots[..], Free(), SLOTS);
      at := cursor % SLOTS;
      slots[at] := RESET;
      cursor := cursor + 1;
    }

    /** Counts, then concatenates the parts of a finished slot. */
    method Collect(a: Assembly) returns (total: nat, whole: Bytes)
      requires a.count <= MAX_FRAGMENTS
      ensures whole == Concat(a.fragments[..a.count]) && total == |whole|
    {
      total, whole := 0, [];
      for i := 0 to a.count
        invariant total == |Concat(a.fragments[..i])|
      {
        assert a.fragments[..i + 1][..i] == a.fragments[..i];
        total := total + |a.fragments[i]|;
      }
      for i := 0 to a.count
        invariant whole == Concat(a.fragments[..i])
      {
        assert a.fragments[..i + 1][..i] == a.fragments[..i];
        whole := whole + a.fragments[i];
      }
    }

    method AcceptFragment(at: nat, source: Addr, f: Fragment) returns (ok: bool, envelope: Bytes)
      requires Valid() && at < SLOTS
      modifies slots
      ensures var r := Accept(old(slots[at]), source, f);
              ok == r.ok && envelope == r.envelope && slots[..] == old(slots[..])[at := r.state]
    {
      hide Concat;
      ok, envelope := false, [];
      if f.count == 0 || f.count > MAX_FRAGMENTS || f.index >= f.count || |f.data| > CAPACITY { return; }
      var state := slots[at];
      if state.id == 0 || state.id != f.id || state.source != source || state.count != f.count
         || state.protocol != f.protocol {
        state := Started(source, f.protocol, f.id, f.count);
      }
      if !state.present[f.index] {
        state := state.(fragments := state.fragments[f.index := f.data], present := state.present[f.index := true],
                        received := state.received + 1);
      }
      slots[at] := state;
      if state.received != state.count { return true, []; }
      var total, whole := Collect(state);
      slots[at] := RESET;
      if total > MAX_ENVELOPE { return false, []; }
      ok, envelope := true, whole;
    }

    method HandleFrame(source: Addr, data: Bytes)
      requires Valid()
      modifies this`cursor, this`delivered, slots
      ensures Model() == Handle(old(Model()), source, data)
    {
      hide Accept, Claim, SlotFor, Decode;
      var decoded := Decode(data);
      if decoded.None? { return; }
      var f := decoded.value;
      var at := FindSlot(source, f.id);
      var ok, envelope := AcceptFragment(at, source, f);
      if ok && envelope != [] {
        delivered := delivered + [Delivery(source, f.protocol, f.id, f.count, envelope)];
      }
    }
  }

  /** An accepted stream is exactly what `FragmentEnvelope` builds, and restores the envelope. */
  lemma StreamRestores(r: Receiver, source: Addr, m: Sent, ws: seq<Wire>, to: Addr)
    requires Sendable(m) && m.id != 0 && ws == Stream(to, m, Pieces(m))
    requires Isolated(r.slots) && First(r.slots, Keyed(source, m.id)) == SLOTS
    ensures var arrivals := seq(|ws|, i requires 0 <= i < |ws| => Arrival(source, ws[i].frame));
            && Named(Run(r, arrivals).delivered, source, m.id) == Named(r.delivered, source, m.id) + [m.envelope]
  {
    hide PieceFrame, Run, Named, Isolated, Keyed, Pieces, SeenAfter, Copies;
    var n := Pieces(m);
    var arrivals := seq(n, i requires 0 <= i < n => Arrival(source, ws[i].frame));
    forall i | 0 <= i < |arrivals| ensures Fair(Run(r, arrivals[..i]), arrivals[i], source, m) {
      PieceDecodes(m, i);
      assert arrivals[i].data == PieceFrame(m, i);
    }
    EnvelopeRestored(r, arrivals, source, m);
    InOrder(arrivals, source, m, n);
    assert arrivals[..n] == arrivals;
  }

  lemma {:induction false} InOrder(arrivals: seq<Arrival>, source: Addr, m: Sent, k: nat)
    requires Sendable(m) && k <= |arrivals| == Pieces(m)
    requires forall i :: 0 <= i < |arrivals| ==> arrivals[i] == Arrival(source, PieceFrame(m, i))
    ensures SeenAfter(arrivals[..k], PieceIn(source, m.id), Pieces(m)) == if k == Pieces(m) then {} else AllIndices(k)
    ensures Copies(arrivals[..k], PieceIn(source, m.id), Pieces(m), m.envelope)
         == if k == Pieces(m) then [m.envelope] else []
  {
    hide PieceFrame, Piece, Decode, Pieces, AllIndices;
    NextIndex(k, Pieces(m));
    if k > 0 {
      InOrder(arrivals, source, m, k - 1);
      PieceDecodes(m, k - 1);
      PieceNamed(m, k - 1);
      assert arrivals[..k][..k - 1] == arrivals[..k - 1];
    }
  }

  lemma PieceNamed(m: Sent, i: nat)
    requires Sendable(m) && i < Pieces(m)
    ensures Piece(m, i).id == m.id
  {
  }

  /** Counting up: the next index completes the set exactly at the end. */
  lemma NextIndex(k: nat, n: nat)
    requires k <= n
    ensures k > 0 ==> AllIndices(k - 1) + {k - 1} == AllIndices(k)
    ensures AllIndices(k) == AllIndices(n) <==> k == n
    ensures AllIndices(0) == {}
  {
    AllIndicesSize(k);
    AllIndicesSize(n);
  }
}
