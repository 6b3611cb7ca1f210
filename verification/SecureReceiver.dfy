/**
 * The eight reassembly slots of the secure transport under arbitrary traffic
 * (src/ESPressio_ESPNowSecureTransport.hpp:131-194). `Unprotect` is outside: an envelope
 * handed to it is an entry of `delivered`.
 */
module SecureReceiver {
  import opened Bytes
  import opened Chunks
  import opened Rounds
  import opened SecureFragments
  import opened Tables

  const SLOTS := 8

  datatype Delivery = Delivery(source: Addr, protocol: byte, id: U32, count: nat, envelope: Bytes)

  datatype RawReceiver = Receiver(slots: seq<Assembly>, cursor: nat, delivered: seq<Delivery>)
  type Receiver = r: RawReceiver | |r.slots| == SLOTS
    witness Receiver(seq(SLOTS, _ => RESET), 0, [])

  const FRESH: Receiver := Receiver(seq(SLOTS, _ => RESET), 0, [])

  function Keyed(source: Addr, id: U32): Assembly -> bool { (a: Assembly) => a.id == id && a.source == source }
  function Free(): Assembly -> bool { (a: Assembly) => a.id == 0 }

  /** No slot is in this message's name and none is free. */
  predicate Recycles(r: Receiver, source: Addr, id: U32) {
    First(r.slots, Keyed(source, id)) == SLOTS && First(r.slots, Free()) == SLOTS
  }

  /** `SlotFor` */
  function SlotFor(r: Receiver, source: Addr, id: U32): (at: nat)
    ensures at < SLOTS
  {
    var own := First(r.slots, Keyed(source, id));
    if own < SLOTS then own
    else
      var free := First(r.slots, Free());
      if free < SLOTS then free else r.cursor % SLOTS
  }

  /** The fragment's own slot, wiped if it is taken from another message. */
  function Claim(r: Receiver, source: Addr, id: U32): Receiver {
    if Recycles(r, source, id) then r.(slots := r.slots[r.cursor % SLOTS := RESET], cursor := r.cursor + 1) else r
  }

  function HandleFragment(r: Receiver, source: Addr, f: Fragment): Receiver {
    var at := SlotFor(r, source, f.id);
    var r1 := Claim(r, source, f.id);
    var result := Accept(r1.slots[at], source, f);
    r1.(slots := r1.slots[at := result.state],
        delivered := if result.ok && result.envelope != []
                  then r1.delivered + [Delivery(source, f.protocol, f.id, f.count, result.envelope)] else r1.delivered)
  }

  /** `HandleFrame` */
  function Handle(r: Receiver, source: Addr, data: Bytes): Receiver {
    match Decode(data)
    case None => r
    case Some(f) => HandleFragment(r, source, f)
  }

  // ---------------------------------------------------------------- isolation

  /** No two slots are in the name of the same message. */
  ghost predicate Isolated(slots: seq<Assembly>) {
    && (forall i :: 0 <= i < |slots| ==> WellFormed(slots[i]))
    && forall i, j :: 0 <= i < j < |slots| && slots[i].id != 0 ==> !Keyed(slots[i].source, slots[i].id)(slots[j])
  }

  lemma ResetWellFormed()
    ensures WellFormed(RESET) && Isolated(FRESH.slots)
  {
    StartedIsEmpty(0, 0, 0, 0);
  }

  lemma ClaimKeeps(r: Receiver, source: Addr, id: U32)
    requires Isolated(r.slots)
    ensures var c, at := Claim(r, source, id), SlotFor(r, source, id);
            && Isolated(c.slots) && c.delivered == r.delivered
            && (forall j :: 0 <= j < SLOTS && j != at ==> c.slots[j] == r.slots[j])
            && (id != 0 ==> forall j :: 0 <= j < SLOTS && j != at ==> !Keyed(source, id)(c.slots[j]))
            && (c.slots[at] == RESET || c.slots[at].id == 0 || Keyed(source, id)(c.slots[at]))
  {
    hide WellFormed;
    ResetWellFormed();
  }

  /** Writing a slot back under its own name or empty keeps names apart. */
  lemma WriteBackKeeps(slots: seq<Assembly>, at: nat, a: Assembly, source: Addr, id: U32)
    requires Isolated(slots) && at < |slots| && WellFormed(a)
    requires a == RESET || Keyed(source, id)(a)
    requires id != 0 ==> forall j :: 0 <= j < |slots| && j != at ==> !Keyed(source, id)(slots[j])
    ensures Isolated(slots[at := a])
  {
    hide WellFormed;
  }

  /** Slots stay isolated whatever arrives. */
  lemma HandleIsolates(r: Receiver, source: Addr, data: Bytes)
    requires Isolated(r.slots)
    ensures Isolated(Handle(r, source, data).slots)
  {
    hide Decode, Accept, Isolated, SlotFor, Claim, WellFormed;
    match Decode(data)
    case None =>
    case Some(f) =>
      var at, c := SlotFor(r, source, f.id), Claim(r, source, f.id);
      ClaimKeeps(r, source, f.id);
      assert WellFormed(c.slots[at]) by { SlotWellFormed(c.slots, at); }
      AcceptKeeps(c.slots[at], source, f);
      WriteBackKeeps(c.slots, at, Accept(c.slots[at], source, f).state, source, f.id);
  }

  lemma SlotWellFormed(slots: seq<Assembly>, at: nat)
    requires Isolated(slots) && at < |slots|
    ensures WellFormed(slots[at])
  {
  }

  /**
   * A fragment of a message in several pieces that no slot is kept for: it starts a slot of
   * its own, the first free one, or with none free the one the cursor is on, in turn; no
   * other slot changes and nothing is delivered.
   */
  lemma NewMessageTakesSlot(r: Receiver, source: Addr, f: Fragment, at: nat)
    requires Sound(f) && f.id != 0 && f.count > 1
    requires forall i :: 0 <= i < SLOTS ==> r.slots[i].id != f.id || r.slots[i].source != source
    requires if Taken(r.slots, SLOTS) then at == r.cursor % 8
             else at < SLOTS && r.slots[at].id == 0 && Taken(r.slots, at)
    ensures var t := HandleFragment(r, source, f);
            && (forall i :: 0 <= i < SLOTS && i != at ==> t.slots[i] == r.slots[i]) && t.delivered == r.delivered
            && t.cursor == (if Taken(r.slots, SLOTS) then r.cursor + 1 else r.cursor)
            && t.slots[at].source == source && t.slots[at].id == f.id && t.slots[at].count == f.count
            && Have(t.slots[at]) == {f.index} && t.slots[at].fragments[f.index] == f.data
  {
    hide Concat, First, Have;
    FirstIs(r.slots, Keyed(source, f.id), SLOTS);
    FirstIs(r.slots, Free(), if Taken(r.slots, SLOTS) then SLOTS else at);
    StartedIsEmpty(source, f.protocol, f.id, f.count);
    PutAdds(Started(source, f.protocol, f.id, f.count), f.index, f.data);
  }

  /** None of the first `n` slots is free. */
  predicate Taken(slots: seq<Assembly>, n: nat)
    requires n <= |slots|
  {
    forall i :: 0 <= i < n ==> slots[i].id != 0
  }

  // ---------------------------------------------------------------- runs

  datatype Arrival = Arrival(source: Addr, data: Bytes)

  function Run(r: Receiver, arrivals: seq<Arrival>): Receiver {
    if arrivals == [] then r
    else
      var last := arrivals[|arrivals| - 1];
      Handle(Run(r, arrivals[..|arrivals| - 1]), last.source, last.data)
  }

  /** The fragment has arrived from `source`. */
  ghost predicate Got(arrivals: seq<Arrival>, source: Addr, f: Fragment) {
    exists j :: 0 <= j < |arrivals| && arrivals[j].source == source && Decode(arrivals[j].data) == Some(f)
  }

  lemma GotMore(arrivals: seq<Arrival>, a: Arrival)
    ensures forall source, f :: Got(arrivals, source, f) ==> Got(arrivals + [a], source, f)
    ensures Decode(a.data).Some? ==> Got(arrivals + [a], a.source, Decode(a.data).value)
  {
    var more := arrivals + [a];
    forall source, f | Got(arrivals, source, f) ensures Got(more, source, f) {
      var j :| 0 <= j < |arrivals| && arrivals[j].source == source && Decode(arrivals[j].data) == Some(f);
      assert more[j] == arrivals[j];
    }
    assert more[|arrivals|] == a;
  }

  /** Every fragment in the slot arrived under the slot's name. */
  ghost predicate SlotGenuine(arrivals: seq<Arrival>, a: Assembly) {
    forall i :: i in Have(a) ==> Got(arrivals, a.source, Fragment(a.protocol, a.id, i, a.count, a.fragments[i]))
  }

  /** The envelope is the concatenation, in order, of fragments that arrived under one name. */
  ghost predicate EnvelopeGenuine(arrivals: seq<Arrival>, o: Delivery) {
    exists parts: seq<Bytes> ::
      && 0 < |parts| == o.count && o.envelope == Concat(parts)
      && forall i :: 0 <= i < |parts| ==> Got(arrivals, o.source, Fragment(o.protocol, o.id, i, o.count, parts[i]))
  }

  ghost predicate Genuine(arrivals: seq<Arrival>, r: Receiver) {
    && Isolated(r.slots)
    && (forall i :: 0 <= i < SLOTS ==> SlotGenuine(arrivals, r.slots[i]))
    && forall o :: o in r.delivered ==> EnvelopeGenuine(arrivals, o)
  }

  lemma GenuineMore(arrivals: seq<Arrival>, a: Arrival, r: Receiver)
    requires Genuine(arrivals, r)
    ensures Genuine(arrivals + [a], r)
  {
    hide Got, Isolated;
    GotMore(arrivals, a);
    forall o | o in r.delivered ensures EnvelopeGenuine(arrivals + [a], o) {
      var parts: seq<Bytes> :|
        && 0 < |parts| == o.count && o.envelope == Concat(parts)
        && forall i :: 0 <= i < |parts| ==> Got(arrivals, o.source, Fragment(o.protocol, o.id, i, o.count, parts[i]));
    }
  }

  /** Accepting an arrived fragment into a genuine slot. */
  lemma AcceptGenuine(arrivals: seq<Arrival>, a: Assembly, source: Addr, f: Fragment)
    requires WellFormed(a) && Sound(f) && SlotGenuine(arrivals, a) && Got(arrivals, source, f)
    ensures var r := Accept(a, source, f);
            && SlotGenuine(arrivals, r.state)
            && (r.ok && r.envelope != [] ==>
                  EnvelopeGenuine(arrivals, Delivery(source, f.protocol, f.id, f.count, r.envelope)))
  {
    hide Concat, Put, SlotGenuine, EnvelopeGenuine, Got;
    NothingHeld(arrivals, 0, 0, 0, 0);
    NothingHeld(arrivals, source, f.protocol, f.id, f.count);
    PutFills(a, source, f);
    SlotPut(arrivals, Opening(a, source, f), source, f);
    var c := Put(Opening(a, source, f), f.index, f.data);
    if c.received == c.count { WholeGenuine(arrivals, c, source, f); }
  }

  lemma NothingHeld(arrivals: seq<Arrival>, source: Addr, protocol: byte, id: U32, count: nat)
    ensures SlotGenuine(arrivals, Started(source, protocol, id, count))
  {
    hide Got;
    StartedIsEmpty(source, protocol, id, count);
  }

  /** A complete slot is the concatenation of what arrived. */
  lemma WholeGenuine(arrivals: seq<Arrival>, c: Assembly, source: Addr, f: Fragment)
    requires Sound(f) && Filled(c, source, f) && SlotGenuine(arrivals, c) && c.received == c.count
    ensures EnvelopeGenuine(arrivals, Delivery(source, f.protocol, f.id, f.count, Concat(c.fragments[..c.count])))
  {
    hide Got, Concat;
    CompleteFits(c, source, f);
    var parts := c.fragments[..c.count];
    forall i | 0 <= i < |parts| ensures Got(arrivals, source, Fragment(f.protocol, f.id, i, f.count, parts[i])) {
      assert i in Have(c);
    }
  }

  lemma SlotPut(arrivals: seq<Arrival>, b: Assembly, source: Addr, f: Fragment)
    requires Sound(f) && SlotGenuine(arrivals, b) && Got(arrivals, source, f)
    requires b.source == source && b.protocol == f.protocol && b.id == f.id && b.count == f.count
    ensures SlotGenuine(arrivals, Put(b, f.index, f.data))
  {
    hide Got, Have;
    PutAdds(b, f.index, f.data);
  }

  lemma HandleGenuine(arrivals: seq<Arrival>, r: Receiver, source: Addr, f: Fragment)
    requires Genuine(arrivals, r) && Sound(f) && Got(arrivals, source, f)
    requires Isolated(HandleFragment(r, source, f).slots)
    ensures Genuine(arrivals, HandleFragment(r, source, f))
  {
    hide Got, Accept, Isolated, EnvelopeGenuine, SlotFor, Claim, SlotGenuine;
    var at, c := SlotFor(r, source, f.id), Claim(r, source, f.id);
    ClaimKeeps(r, source, f.id);
    SlotWellFormed(c.slots, at);
    ClaimedGenuine(arrivals, r, source, f.id);
    AcceptGenuine(arrivals, c.slots[at], source, f);
  }

  lemma ClaimedGenuine(arrivals: seq<Arrival>, r: Receiver, source: Addr, id: U32)
    requires forall i :: 0 <= i < SLOTS ==> SlotGenuine(arrivals, r.slots[i])
    ensures forall i :: 0 <= i < SLOTS ==> SlotGenuine(arrivals, Claim(r, source, id).slots[i])
  {
    hide Got;
    StartedIsEmpty(0, 0, 0, 0);
    assert SlotGenuine(arrivals, RESET);
  }

  /**
   * Provenance. Whatever arrives, from anyone, with slots recycled at any time: slots never
   * share a source and a non-zero identifier, and every envelope given to `Unprotect` is the
   * in-order concatenation of fragments that arrived from one source with one identifier,
   * count and protocol.
   */
  lemma {:induction false} EnvelopesAreGenuine(arrivals: seq<Arrival>)
    ensures Genuine(arrivals, Run(FRESH, arrivals))
  {
    hide Genuine, Handle;
    if arrivals == [] {
      NothingGenuine();
    } else {
      var n := |arrivals| - 1;
      var front, a := arrivals[..n], arrivals[n];
      EnvelopesAreGenuine(front);
      assert arrivals == front + [a];
      StepGenuine(front, Run(FRESH, front), a);
    }
  }

  lemma NothingGenuine()
    ensures Genuine([], FRESH)
  {
    ResetWellFormed();
    StartedIsEmpty(0, 0, 0, 0);
  }

  lemma StepGenuine(arrivals: seq<Arrival>, r: Receiver, a: Arrival)
    requires Genuine(arrivals, r)
    ensures Genuine(arrivals + [a], Handle(r, a.source, a.data))
  {
    hide Got, Decode, Isolated, EnvelopeGenuine, SlotGenuine, HandleFragment;
    GenuineMore(arrivals, a, r);
    GotMore(arrivals, a);
    HandleIsolates(r, a.source, a.data);
    match Decode(a.data)
    case None =>
    case Some(f) => HandleGenuine(arrivals + [a], r, a.source, f);
  }

  // ---------------------------------------------------------------- honest senders

  /** Every fragment that arrived is a piece of what its source sent under that identifier. */
  ghost predicate Honest(arrivals: seq<Arrival>, sent: (Addr, U32) -> Sent) {
    forall source, f :: Got(arrivals, source, f) ==>
      var m := sent(source, f.id);
      Sendable(m) && f.index < Pieces(m) && f == Piece(m, f.index)
  }

  /** With honest senders every envelope is one that was sent, under its own protocol. */
  lemma HonestEnvelopes(arrivals: seq<Arrival>, sent: (Addr, U32) -> Sent, o: Delivery)
    requires Honest(arrivals, sent) && o in Run(FRESH, arrivals).delivered
    ensures var m := sent(o.source, o.id);
            o.envelope == m.envelope && o.protocol == m.protocol && o.id == m.id
  {
    hide Got, Run, Concat;
    EnvelopesAreGenuine(arrivals);
    assert EnvelopeGenuine(arrivals, o);
    var parts: seq<Bytes> :|
      && 0 < |parts| == o.count && o.envelope == Concat(parts)
      && forall i :: 0 <= i < |parts| ==> Got(arrivals, o.source, Fragment(o.protocol, o.id, i, o.count, parts[i]));
    var m := sent(o.source, o.id);
    HonestPart(arrivals, sent, o, 0, parts[0]);
    forall i | 0 <= i < |parts| ensures parts[i] == Chunk(m.envelope, CAPACITY, i) {
      HonestPart(arrivals, sent, o, i, parts[i]);
    }
    ConcatChunks(parts, m.envelope);
  }

  lemma HonestPart(arrivals: seq<Arrival>, sent: (Addr, U32) -> Sent, o: Delivery, i: nat, part: Bytes)
    requires Honest(arrivals, sent) && Got(arrivals, o.source, Fragment(o.protocol, o.id, i, o.count, part))
    ensures var m := sent(o.source, o.id);
            && Sendable(m) && o.count == Pieces(m) && i < Pieces(m) && part == Chunk(m.envelope, CAPACITY, i)
            && o.protocol == m.protocol && o.id == m.id
  {
    hide Got;
    assert Fragment(o.protocol, o.id, i, o.count, part).id == o.id;
  }

  // ---------------------------------------------------------------- any order, any traffic

  /** The table holds exactly the pieces `seen` of `m` from `source`. */
  ghost predicate Gathers(slots: seq<Assembly>, source: Addr, m: Sent, seen: set<nat>)
    requires Sendable(m)
  {
    var at := First(slots, Keyed(source, m.id));
    if at == |slots| then seen == {} else seen != {} && Collects(slots[at], source, m, seen)
  }

  predicate Concerns(a: Arrival, source: Addr, id: U32) {
    a.source == source && Decode(a.data).Some? && Decode(a.data).value.id == id
  }

  function IndexIn(a: Arrival): nat { if Decode(a.data).Some? then Decode(a.data).value.index else 0 }

  /** A frame under the name of `m` is one of its pieces; any other frame leaves the slot of `m` alone. */
  ghost predicate Fair(r: Receiver, a: Arrival, source: Addr, m: Sent)
    requires Sendable(m)
  {
    if Concerns(a, source, m.id) then
      exists i :: 0 <= i < Pieces(m) && a.data == PieceFrame(m, i)
    else
      Decode(a.data).Some? && Recycles(r, a.source, Decode(a.data).value.id) ==>
        First(r.slots, Keyed(source, m.id)) != r.cursor % SLOTS
  }

  /** What an arrival brings of the message `id` of `source`. */
  function PieceIn(source: Addr, id: U32): Arrival -> Option<nat> {
    (a: Arrival) => if Concerns(a, source, id) then Some(IndexIn(a)) else None
  }

  /** The envelopes given to `Unprotect` for one name. */
  function Named(ds: seq<Delivery>, source: Addr, id: U32): seq<Bytes> {
    if ds == [] then []
    else
      var last := ds[|ds| - 1];
      Named(ds[..|ds| - 1], source, id) + if last.source == source && last.id == id then [last.envelope] else []
  }

  lemma NamedOne(ds: seq<Delivery>, d: Delivery, source: Addr, id: U32)
    ensures Named(ds + [d], source, id)
         == Named(ds, source, id) + if d.source == source && d.id == id then [d.envelope] else []
  {
    assert (ds + [d])[..|ds|] == ds;
  }

  /** A slot written back for another name does not disturb the slot of `m`. */
  lemma GathersElsewhere(slots: seq<Assembly>, source: Addr, m: Sent, seen: set<nat>, at: nat, a: Assembly)
    requires Sendable(m) && Gathers(slots, source, m, seen) && at < |slots|
    requires !Keyed(source, m.id)(slots[at]) && !Keyed(source, m.id)(a)
    ensures Gathers(slots[at := a], source, m, seen)
  {
    hide Collects;
    FirstIs(slots[at := a], Keyed(source, m.id), First(slots, Keyed(source, m.id)));
  }

  lemma OtherFrame(r: Receiver, source: Addr, m: Sent, seen: set<nat>, from: Addr, f: Fragment)
    requires Sendable(m) && m.id != 0 && Isolated(r.slots) && Gathers(r.slots, source, m, seen) && Sound(f)
    requires !(from == source && f.id == m.id)
    requires Recycles(r, from, f.id) ==> First(r.slots, Keyed(source, m.id)) != r.cursor % SLOTS
    ensures var t := HandleFragment(r, from, f);
            && Gathers(t.slots, source, m, seen)
            && Named(t.delivered, source, m.id) == Named(r.delivered, source, m.id)
  {
    hide Accept, Gathers, WellFormed, Isolated, Named, SlotFor, Claim;
    var at, c := SlotFor(r, from, f.id), Claim(r, from, f.id);
    ClaimKeeps(r, from, f.id);
    OtherClaim(r, source, m, seen, from, f.id);
    SlotWellFormed(c.slots, at);
    AcceptKeeps(c.slots[at], from, f);
    var result := Accept(c.slots[at], from, f);
    GathersElsewhere(c.slots, source, m, seen, at, result.state);
    NamedOne(r.delivered, Delivery(from, f.protocol, f.id, f.count, result.envelope), source, m.id);
  }

  /** Claiming a slot for another name leaves that of `m` in place. */
  lemma OtherClaim(r: Receiver, source: Addr, m: Sent, seen: set<nat>, from: Addr, id: U32)
    requires Sendable(m) && m.id != 0 && Isolated(r.slots) && Gathers(r.slots, source, m, seen)
    requires !(from == source && id == m.id)
    requires Recycles(r, from, id) ==> First(r.slots, Keyed(source, m.id)) != r.cursor % SLOTS
    ensures var c := Claim(r, from, id);
            Gathers(c.slots, source, m, seen) && !Keyed(source, m.id)(c.slots[SlotFor(r, from, id)])
  {
    hide Collects, WellFormed, Gathers;
    if Recycles(r, from, id) {
      OnlyOne(r.slots, source, m.id, r.cursor % SLOTS);
      GathersElsewhere(r.slots, source, m, seen, r.cursor % SLOTS, RESET);
    }
  }

  lemma OnlyOne(slots: seq<Assembly>, source: Addr, id: U32, j: nat)
    requires Isolated(slots) && id != 0 && j < |slots| && First(slots, Keyed(source, id)) != j
    ensures !Keyed(source, id)(slots[j])
  {
    hide WellFormed;
  }

  lemma OwnFrame(r: Receiver, source: Addr, m: Sent, seen: set<nat>, i: nat)
    requires Sendable(m) && m.id != 0 && Isolated(r.slots) && Gathers(r.slots, source, m, seen) && i < Pieces(m)
    ensures var t, now := HandleFragment(r, source, Piece(m, i)), seen + {i};
            && Gathers(t.slots, source, m, if now == AllIndices(Pieces(m)) then {} else now)
            && Named(t.delivered, source, m.id)
               == Named(r.delivered, source, m.id) + if now == AllIndices(Pieces(m)) then [m.envelope] else []
  {
    hide Accept, WellFormed, Isolated, Named, SlotFor, Claim, Collects, AllIndices, First, Chunk, Pieces, RESET;
    var f := Piece(m, i);
    var at, c := SlotFor(r, source, m.id), Claim(r, source, m.id);
    OwnClaim(r, source, m, seen);
    AcceptPiece(c.slots[at], source, m, seen, i);
    var result := Accept(c.slots[at], source, f);
    OwnWritten(c.slots, at, result.state, source, m, seen + {i});
    NamedOne(r.delivered, Delivery(source, f.protocol, f.id, f.count, result.envelope), source, m.id);
  }

  lemma OwnClaim(r: Receiver, source: Addr, m: Sent, seen: set<nat>)
    requires Sendable(m) && m.id != 0 && Isolated(r.slots) && Gathers(r.slots, source, m, seen)
    ensures var c, at := Claim(r, source, m.id), SlotFor(r, source, m.id);
            && c.delivered == r.delivered
            && (Collects(c.slots[at], source, m, seen) || (seen == {} && !Keyed(source, m.id)(c.slots[at])))
            && forall j :: 0 <= j < SLOTS && j != at ==> !Keyed(source, m.id)(c.slots[j])
  {
    hide WellFormed, Collects;
    ClaimKeeps(r, source, m.id);
  }

  lemma OwnWritten(slots: seq<Assembly>, at: nat, a: Assembly, source: Addr, m: Sent, seen: set<nat>)
    requires Sendable(m) && m.id != 0 && at < |slots| && seen != {}
    requires forall j :: 0 <= j < |slots| && j != at ==> !Keyed(source, m.id)(slots[j])
    ensures a == RESET ==> Gathers(slots[at := a], source, m, {})
    ensures Collects(a, source, m, seen) ==> Gathers(slots[at := a], source, m, seen)
  {
    hide First;
    if a == RESET { FirstIs(slots[at := a], Keyed(source, m.id), |slots|); }
    if Collects(a, source, m, seen) { FirstIs(slots[at := a], Keyed(source, m.id), at); }
  }

  lemma HandleGathers(r: Receiver, a: Arrival, source: Addr, m: Sent, seen: set<nat>)
    requires Sendable(m) && m.id != 0 && Isolated(r.slots) && Gathers(r.slots, source, m, seen) && Fair(r, a, source, m)
    ensures var t := Handle(r, a.source, a.data);
            && Gathers(t.slots, source, m, Collect(seen, PieceIn(source, m.id)(a), Pieces(m)))
            && Named(t.delivered, source, m.id)
               == Named(r.delivered, source, m.id)
                  + if Finishes(seen, PieceIn(source, m.id)(a), Pieces(m)) then [m.envelope] else []
  {
    hide HandleFragment, Gathers, Isolated, Named, Decode, PieceFrame, Piece, Pieces, AllIndices, Recycles;
    if Concerns(a, source, m.id) {
      var i :| 0 <= i < Pieces(m) && a.data == PieceFrame(m, i);
      PieceDecodes(m, i);
      OwnFrame(r, source, m, seen, i);
    } else if Decode(a.data).Some? {
      OtherFrame(r, source, m, seen, a.source, Decode(a.data).value);
    }
  }

  lemma PieceDecodes(m: Sent, i: nat)
    requires Sendable(m) && i < Pieces(m)
    ensures Decode(PieceFrame(m, i)) == Some(Piece(m, i)) && Piece(m, i).index == i
  {
    hide Decode, Chunk;
    DecodeInvertsEncode(Piece(m, i));
  }

  ghost predicate FairRun(r: Receiver, arrivals: seq<Arrival>, source: Addr, m: Sent)
    requires Sendable(m)
  {
    forall i :: 0 <= i < |arrivals| ==> Fair(Run(r, arrivals[..i]), arrivals[i], source, m)
  }

  /**
   * Any-order restoration among other traffic. Pieces of a message with a non-zero
   * identifier may come in any order and any number of times, mixed with any frames of
   * other messages and senders; as long as its slot is not recycled, `Unprotect` gets
   * exactly its envelope, once for each time the set of pieces became complete.
   */
  lemma {:induction false} EnvelopeRestored(r: Receiver, arrivals: seq<Arrival>, source: Addr, m: Sent)
    requires Sendable(m) && m.id != 0 && Isolated(r.slots) && First(r.slots, Keyed(source, m.id)) == SLOTS
    requires FairRun(r, arrivals, source, m)
    ensures var t := Run(r, arrivals);
            && Isolated(t.slots)
            && Named(t.delivered, source, m.id)
               == Named(r.delivered, source, m.id) + Copies(arrivals, PieceIn(source, m.id), Pieces(m), m.envelope)
            && Gathers(t.slots, source, m, SeenAfter(arrivals, PieceIn(source, m.id), Pieces(m)))
  {
    hide Handle, Fair, Named, Isolated, Finishes, Collect, Collects;
    if arrivals != [] {
      hide Gathers;
      var n := |arrivals| - 1;
      var front, a := arrivals[..n], arrivals[n];
      forall i | 0 <= i < n ensures Fair(Run(r, front[..i]), front[i], source, m) {
        assert front[..i] == arrivals[..i];
      }
      EnvelopeRestored(r, front, source, m);
      var t := Run(r, front);
      assert Fair(t, a, source, m);
      HandleIsolates(t, a.source, a.data);
      HandleGathers(t, a, source, m, SeenAfter(front, PieceIn(source, m.id), Pieces(m)));
      var seen := SeenAfter(front, PieceIn(source, m.id), Pieces(m));
      var more := if Finishes(seen, PieceIn(source, m.id)(a), Pieces(m)) then [m.envelope] else [];
      assert Named(r.delivered, source, m.id) + Copies(front, PieceIn(source, m.id), Pieces(m), m.envelope) + more
          == Named(r.delivered, source, m.id) + (Copies(front, PieceIn(source, m.id), Pieces(m), m.envelope) + more);
    }
  }
}
