/**
 * Security envelopes in fragments (src/ESPressio_ESPNowSecurityProtocol.hpp): the wire form
 * of a fragment, the split of an envelope, and the acceptance of one fragment into a
 * reassembly.
 */
module SecureFragments {
  import opened Bytes
  import opened Chunks

  type U32 = x: nat | x < 0x1_0000_0000

  const MAGIC := 0x53454345
  const VERSION := 1
  const HEADER_SIZE := 15
  const CAPACITY := 227
  const MAX_FRAGMENTS := 8
  const MAX_ENVELOPE := 1816
  /** magic, version, flags, application protocol, message id, index, count */
  const FIELDS: seq<nat> := [4, 1, 1, 1, 4, 2, 2]

  datatype Fragment = Fragment(protocol: byte, id: U32, index: nat, count: nat, data: Bytes)

  /** The bounds every entry point checks. */
  predicate Sound(f: Fragment) {
    0 < f.count <= MAX_FRAGMENTS && f.index < f.count && |f.data| <= CAPACITY
  }

  lemma HeaderWidth()
    ensures Width(FIELDS) == HEADER_SIZE
  {
    assert FIELDS[1..] == [1, 1, 1, 4, 2, 2];
    assert [1, 1, 1, 4, 2, 2][1..] == [1, 1, 4, 2, 2];
    assert [1, 1, 4, 2, 2][1..] == [1, 4, 2, 2];
    assert [1, 4, 2, 2][1..] == [4, 2, 2];
    assert Width([4, 2, 2]) == 8;
  }

  /** `EncodeFragmentPayload` */
  function Encode(f: Fragment): Option<Bytes> {
    if !Sound(f) then None
    else Some(Pack(FIELDS, [MAGIC, VERSION, 0, f.protocol, f.id, f.index, f.count]) + f.data)
  }

  /** `DecodeFragment`: the flags byte is read and ignored. */
  function Decode(data: Bytes): (r: Option<Fragment>)
    ensures r.Some? ==> Sound(r.value)
  {
    HeaderWidth();
    if |data| < HEADER_SIZE then None
    else
      var v := Unpack(FIELDS, data);
      UnpackFits(FIELDS, data);
      FieldSizes();
      assert v[3] < Pow256(FIELDS[3]) && v[4] < Pow256(FIELDS[4]);
      var f := Fragment(v[3], v[4], v[5], v[6], data[HEADER_SIZE..]);
      if v[0] != MAGIC || v[1] != VERSION || !Sound(f) then None else Some(f)
  }

  /** Decoding inverts encoding. */
  lemma DecodeInvertsEncode(f: Fragment)
    requires Sound(f)
    ensures Decode(Encode(f).value) == Some(f)
  {
    var vs := [MAGIC, VERSION, 0, f.protocol, f.id, f.index, f.count];
    FieldSizes();
    PackReadsBack(FIELDS, vs, f.data);
    HeaderWidth();
    assert Encode(f).value[HEADER_SIZE..] == f.data;
  }

  /** Whatever decodes is the encoding of its fragment, up to the ignored flags byte. */
  lemma DecodedIsEncoding(data: Bytes)
    requires Decode(data).Some?
    ensures |data| >= HEADER_SIZE && Encode(Decode(data).value) == Some(data[5 := 0])
  {
    hide Pack, Unpack, Pow256;
    HeaderWidth();
    var clear := data[5 := 0];
    FlagsOnly(data);
    UnpackWritesBack(FIELDS, clear);
    var f := Decode(data).value;
    assert Unpack(FIELDS, clear) == [MAGIC, VERSION, 0, f.protocol, f.id, f.index, f.count];
    assert clear == clear[..HEADER_SIZE] + data[HEADER_SIZE..];
  }

  lemma FlagsOnly(data: Bytes)
    requires |data| >= HEADER_SIZE == Width(FIELDS)
    ensures Unpack(FIELDS, data[5 := 0]) == Unpack(FIELDS, data)[2 := 0]
  {
    hide Unpack;
    var clear := data[5 := 0];
    FirstThree(data);
    FirstThree(clear);
    assert clear[..4] == data[..4] && clear[4..5] == data[4..5] && clear[5..6] == [0] && clear[6..] == data[6..];
    assert FromLittleEndian([0]) == 0;
  }

  lemma FirstThree(data: Bytes)
    requires |data| >= HEADER_SIZE == Width(FIELDS)
    ensures Width([1, 4, 2, 2]) == 9
    ensures Unpack(FIELDS, data)
            == [FromLittleEndian(data[..4]), FromLittleEndian(data[4..5]), FromLittleEndian(data[5..6])]
                                    + Unpack([1, 4, 2, 2], data[6..])
  {
    hide FromLittleEndian, Unpack;
    var rest := [1, 4, 2, 2];
    assert FIELDS == [4] + ([1] + ([1] + rest));
    assert rest[1..] == [4, 2, 2] && Width([4, 2, 2]) == 8;
    UnpackStep(1, rest, data[5..]);
    UnpackStep(1, [1] + rest, data[4..]);
    UnpackStep(4, [1] + ([1] + rest), data);
    assert data[4..][1..] == data[5..] && data[5..][1..] == data[6..];
    assert data[4..][..1] == data[4..5] && data[5..][..1] == data[5..6];
  }

  lemma UnpackStep(w: nat, ws: seq<nat>, b: Bytes)
    requires |b| >= w + Width(ws)
    ensures Width([w] + ws) == w + Width(ws)
    ensures Unpack([w] + ws, b) == [FromLittleEndian(b[..w])] + Unpack(ws, b[w..])
  {
    assert ([w] + ws)[1..] == ws;
  }

  // ---------------------------------------------------------------- an envelope in fragments

  datatype Sent = Sent(protocol: byte, id: U32, envelope: Bytes)

  predicate Sendable(m: Sent) { 0 < |m.envelope| <= MAX_ENVELOPE }

  function Pieces(m: Sent): (n: nat)
    requires Sendable(m)
    ensures 0 < n <= MAX_FRAGMENTS
  {
    CountBounds(|m.envelope|, CAPACITY);
    ChunkCount(|m.envelope|, CAPACITY)
  }

  function Piece(m: Sent, i: nat): (f: Fragment)
    requires Sendable(m) && i < Pieces(m)
    ensures Sound(f)
  {
    Fragment(m.protocol, m.id, i, Pieces(m), Chunk(m.envelope, CAPACITY, i))
  }

  /** The frame carrying piece `i`. */
  function PieceFrame(m: Sent, i: nat): Bytes
    requires Sendable(m) && i < Pieces(m)
  {
    Encode(Piece(m, i)).value
  }

  method EncodePiece(m: Sent, i: nat) returns (frame: Bytes)
    requires Sendable(m) && i < Pieces(m)
    ensures frame == PieceFrame(m, i)
  {
    hide Pack, Chunk, ChunkCount;
    ChunkSlice(m.envelope, CAPACITY, i);
    var offset := i * CAPACITY;
    var left := |m.envelope| - offset;
    var bytes := if CAPACITY < left then CAPACITY else left;
    frame := Encode(Fragment(m.protocol, m.id, i, Pieces(m), m.envelope[offset..offset + bytes])).value;
  }

  /** `FragmentEnvelope` */
  method FragmentEnvelope(m: Sent) returns (frames: Option<seq<Bytes>>)
    ensures frames.Some? <==> Sendable(m)
    ensures frames.Some? ==> |frames.value| == Pieces(m)
    ensures frames.Some? ==> forall i :: 0 <= i < |frames.value| ==> frames.value[i] == PieceFrame(m, i)
  {
    hide PieceFrame;
    if |m.envelope| == 0 || |m.envelope| > MAX_ENVELOPE { return None; }
    var all: seq<Bytes> := [];
    for i := 0 to Pieces(m)
      invariant |all| == i && forall j :: 0 <= j < i ==> all[j] == PieceFrame(m, j)
    {
      var frame := EncodePiece(m, i);
      all := all + [frame];
    }
    frames := Some(all);
  }

  // ---------------------------------------------------------------- accepting fragments

  /** `ReassemblyState` */
  datatype RawAssembly = Assembly(
    source: Addr, protocol: byte, id: U32, count: nat, fragments: seq<Bytes>, present: seq<bool>, received: nat)

  type Assembly = a: RawAssembly | |a.fragments| == MAX_FRAGMENTS && |a.present| == MAX_FRAGMENTS
    witness Assembly(0, 0, 0, 0, seq(MAX_FRAGMENTS, _ => []), seq(MAX_FRAGMENTS, _ => false), 0)

  /** `Reset`, and the start of a new message. */
  function Started(source: Addr, protocol: byte, id: U32, count: nat): Assembly {
    Assembly(source, protocol, id, count, seq(MAX_FRAGMENTS, _ => []), seq(MAX_FRAGMENTS, _ => false), 0)
  }

  const RESET: Assembly := Started(0, 0, 0, 0)

  function Concat(parts: seq<Bytes>): Bytes {
    if parts == [] then [] else Concat(parts[..|parts| - 1]) + parts[|parts| - 1]
  }

  predicate Continues(a: Assembly, source: Addr, f: Fragment) {
    a.id != 0 && a.id == f.id && a.source == source && a.count == f.count && a.protocol == f.protocol
  }

  /** The state a fragment is put into: the one it continues, or a fresh one. */
  function Opening(a: Assembly, source: Addr, f: Fragment): Assembly {
    if Continues(a, source, f) then a else Started(source, f.protocol, f.id, f.count)
  }

  function Put(a: Assembly, i: nat, data: Bytes): Assembly
    requires i < MAX_FRAGMENTS
  {
    if a.present[i] then a
    else a.(fragments := a.fragments[i := data], present := a.present[i := true], received := a.received + 1)
  }

  datatype Acceptance = Acceptance(state: Assembly, ok: bool, envelope: Bytes)

  /** `AcceptFragment` */
  function Accept(a: Assembly, source: Addr, f: Fragment): Acceptance {
    if !Sound(f) then Acceptance(a, false, [])
    else
      var b := Put(Opening(a, source, f), f.index, f.data);
      if b.received != b.count then Acceptance(b, true, [])
      else
        var whole := Concat(b.fragments[..b.count]);
        if |whole| > MAX_ENVELOPE then Acceptance(RESET, false, []) else Acceptance(RESET, true, whole)
  }

  // ---------------------------------------------------------------- what acceptance keeps

  ghost function Have(a: Assembly): (s: set<nat>)
    ensures forall i :: i in s <==> 0 <= i < MAX_FRAGMENTS && a.present[i]
  {
    set i | 0 <= i < MAX_FRAGMENTS && a.present[i]
  }

  /** The counter counts, nothing beyond the count is present, no fragment is too long. */
  ghost predicate WellFormed(a: Assembly) {
    && a.count <= MAX_FRAGMENTS && Have(a) <= AllIndices(a.count) && a.received == |Have(a)|
    && (forall i :: i in Have(a) ==> |a.fragments[i]| <= CAPACITY)
    && (a.received == a.count ==> a.count == 0)
  }

  lemma StartedIsEmpty(source: Addr, protocol: byte, id: U32, count: nat)
    ensures Have(Started(source, protocol, id, count)) == {}
  {
  }

  lemma PutAdds(a: Assembly, i: nat, data: Bytes)
    requires i < MAX_FRAGMENTS
    ensures Have(Put(a, i, data)) == Have(a) + {i}
    ensures a.received == |Have(a)| ==> Put(a, i, data).received == |Have(a) + {i}|
    ensures forall j :: j in Have(a) ==> Put(a, i, data).fragments[j] == a.fragments[j]
    ensures i !in Have(a) ==> Put(a, i, data).fragments[i] == data
  {
    assert i in Have(a) ==> Have(a) + {i} == Have(a);
  }

  /** Before completion is decided: the new index is in, every part is small. */
  ghost predicate Filled(b: Assembly, source: Addr, f: Fragment) {
    && b.source == source && b.protocol == f.protocol && b.id == f.id && b.count == f.count
    && f.index in Have(b) && Have(b) <= AllIndices(b.count) && b.received == |Have(b)|
    && forall i :: i in Have(b) ==> |b.fragments[i]| <= CAPACITY
  }

  lemma PutFills(a: Assembly, source: Addr, f: Fragment)
    requires WellFormed(a) && Sound(f)
    ensures Filled(Put(Opening(a, source, f), f.index, f.data), source, f)
  {
    hide Have;
    StartedIsEmpty(source, f.protocol, f.id, f.count);
    PutAdds(Opening(a, source, f), f.index, f.data);
  }

  lemma {:induction false} ConcatBound(parts: seq<Bytes>)
    requires forall i :: 0 <= i < |parts| ==> |parts[i]| <= CAPACITY
    ensures |Concat(parts)| <= CAPACITY * |parts|
  {
    if parts != [] { ConcatBound(parts[..|parts| - 1]); }
  }

  /** A complete set of fragments always fits: the oversize branch is never taken. */
  lemma CompleteFits(b: Assembly, source: Addr, f: Fragment)
    requires Sound(f) && Filled(b, source, f) && b.received == b.count
    ensures Have(b) == AllIndices(b.count)
    ensures |Concat(b.fragments[..b.count])| <= MAX_ENVELOPE
  {
    CountMeansAll(Have(b), b.count);
    ConcatBound(b.fragments[..b.count]);
  }

  /** Every sound fragment is accepted, and the state stays well formed. */
  lemma AcceptKeeps(a: Assembly, source: Addr, f: Fragment)
    requires WellFormed(a) && Sound(f)
    ensures var r := Accept(a, source, f);
            && r.ok && WellFormed(r.state)
            && (r.state == RESET || (r.state.source == source && r.state.id == f.id))
  {
    hide Have, Concat, Put;
    PutFills(a, source, f);
    StartedIsEmpty(0, 0, 0, 0);
    var b := Put(Opening(a, source, f), f.index, f.data);
    if b.received == b.count { CompleteFits(b, source, f); }
  }

  // ---------------------------------------------------------------- one message in any order

  /** Concatenating the chunks of an envelope restores it. */
  lemma {:induction false} ConcatChunks(parts: seq<Bytes>, e: Bytes)
    requires |parts| <= ChunkCount(|e|, CAPACITY)
    requires forall i :: 0 <= i < |parts| ==> parts[i] == Chunk(e, CAPACITY, i)
    ensures Start(CAPACITY, |parts|) <= |e| || |parts| == ChunkCount(|e|, CAPACITY)
    ensures Concat(parts) == if |parts| == ChunkCount(|e|, CAPACITY) then e else e[..Start(CAPACITY, |parts|)]
  {
    if parts == [] {
      if |e| > 0 { CountBounds(|e|, CAPACITY); }
    } else {
      var n := |parts| - 1;
      ConcatChunks(parts[..n], e);
      ChunkBounds(|e|, CAPACITY, n);
      assert e[..Start(CAPACITY, n)] + Chunk(e, CAPACITY, n)
          == e[..Start(CAPACITY, n) + Length(|e|, CAPACITY, n)];
      Steps(CAPACITY, n, n + 1);
    }
  }

  /** The state holds the pieces `seen` of `m` from `source`, and those only. */
  ghost predicate Collects(a: Assembly, source: Addr, m: Sent, seen: set<nat>)
    requires Sendable(m)
  {
    && a.source == source && a.protocol == m.protocol && a.id == m.id && a.count == Pieces(m)
    && Have(a) == seen <= AllIndices(Pieces(m)) && a.received == |seen|
    && forall i :: i in seen ==> a.fragments[i] == Chunk(m.envelope, CAPACITY, i)
  }

  lemma PutCollects(a: Assembly, source: Addr, m: Sent, seen: set<nat>, i: nat)
    requires Sendable(m) && Collects(a, source, m, seen) && i < Pieces(m)
    ensures Collects(Put(a, i, Piece(m, i).data), source, m, seen + {i})
  {
    hide Have, Chunk;
    PutAdds(a, i, Piece(m, i).data);
    assert i in AllIndices(Pieces(m));
  }

  lemma CollectedAll(b: Assembly, source: Addr, m: Sent, seen: set<nat>)
    requires Sendable(m) && Collects(b, source, m, seen)
    ensures b.received == b.count <==> seen == AllIndices(Pieces(m))
    ensures seen == AllIndices(Pieces(m)) ==> Concat(b.fragments[..b.count]) == m.envelope
  {
    CountMeansAll(seen, Pieces(m));
    if seen == AllIndices(Pieces(m)) { ConcatChunks(b.fragments[..b.count], m.envelope); }
  }

  /** One piece of a non-zero message: kept, or the whole envelope when it was the last one missing. */
  lemma AcceptPiece(a: Assembly, source: Addr, m: Sent, seen: set<nat>, i: nat)
    requires Sendable(m) && m.id != 0 && i < Pieces(m)
    requires Collects(a, source, m, seen) || (seen == {} && !(a.id == m.id && a.source == source))
    ensures var r, now := Accept(a, source, Piece(m, i)), seen + {i};
            && r.ok
            && if now == AllIndices(Pieces(m)) then r.state == RESET && r.envelope == m.envelope
               else Collects(r.state, source, m, now) && r.envelope == []
  {
    hide Have, Put, Concat, Chunk;
    var f := Piece(m, i);
    StartedIsEmpty(source, m.protocol, m.id, Pieces(m));
    var b := Opening(a, source, f);
    assert Collects(b, source, m, seen);
    PutCollects(b, source, m, seen, i);
    CollectedAll(Put(b, i, f.data), source, m, seen + {i});
  }

  /** A message with identifier zero completes exactly when it is a single fragment. */
  lemma ZeroIdentifier(a: Assembly, source: Addr, f: Fragment)
    requires Sound(f) && f.id == 0 && f.data != []
    ensures Accept(a, source, f).envelope != [] <==> f.count == 1
    ensures f.count == 1 ==> Accept(a, source, f).envelope == f.data
  {
    var b := Put(Opening(a, source, f), f.index, f.data);
    if f.count == 1 {
      assert b.fragments[..1] == [f.data];
      assert Concat([f.data]) == Concat([]) + f.data;
    }
  }
}
