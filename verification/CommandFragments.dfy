/** Command fragments on the wire (src/ESPressio_ESPNowCommandProtocol.hpp:38-54, 172-246). */
module CommandFragments {
  import opened Bytes
  import opened Chunks

  const MAGIC := 0x45434D44
  const VERSION := 1
  const HEADER_SIZE := 26
  /** magic, version, type, reserved, request id, total length, index, count, fragment length */
  const FIELDS: seq<nat> := [4, 1, 1, 2, 8, 4, 2, 2, 2]

  datatype MessageType = Request | Response

  datatype Message = Message(kind: MessageType, id: U64, payload: Bytes)

  datatype Header = Header(kind: MessageType, id: U64, total: nat, index: nat, count: nat, length: nat)

  function WireType(t: MessageType): byte {
    match t case Request => 1 case Response => 2
  }

  lemma HeaderWidth()
    ensures Width(FIELDS) == HEADER_SIZE
  {
    assert FIELDS[1..] == [1, 1, 2, 8, 4, 2, 2, 2];
    assert [1, 1, 2, 8, 4, 2, 2, 2][1..] == [1, 2, 8, 4, 2, 2, 2];
    assert [1, 2, 8, 4, 2, 2, 2][1..] == [2, 8, 4, 2, 2, 2];
    assert [2, 8, 4, 2, 2, 2][1..] == [8, 4, 2, 2, 2];
    assert [8, 4, 2, 2, 2][1..] == [4, 2, 2, 2];
    assert [4, 2, 2, 2][1..] == [2, 2, 2];
    assert Width([2, 2, 2]) == 6;
  }

  /** Payload bytes per fragment under a protocol payload limit. */
  function Capacity(limit: nat): nat
    requires limit > HEADER_SIZE
  {
    limit - HEADER_SIZE
  }

  /** `GetFragmentCount`; zero means "cannot be represented". */
  function FragmentCount(size: nat, limit: nat): nat {
    if size == 0 || limit <= HEADER_SIZE || size > 0xFFFF_FFFF then 0
    else
      var count := ChunkCount(size, Capacity(limit));
      if count == 0 || count > 0xFFFF then 0 else count
  }

  /** A limit under which the 16-bit fragment length is never cut. */
  predicate UsableLimit(limit: nat) { HEADER_SIZE < limit <= HEADER_SIZE + 0xFFFF }

  /** `BuildFragment`. The header fields are cut to their wire widths by `Pack`. */
  function Frame(limit: nat, m: Message, i: nat): Bytes
    requires i < FragmentCount(|m.payload|, limit)
  {
    var data := Chunk(m.payload, Capacity(limit), i);
    Pack(FIELDS, [MAGIC, VERSION, WireType(m.kind), 0, m.id, |m.payload|, i,
                  FragmentCount(|m.payload|, limit), |data|]) + data
  }

  /** `ParseFragmentHeader`: header and fragment bytes of a structurally valid frame. */
  function ParseFrame(data: Bytes): (r: Option<(Header, Bytes)>)
    ensures r.Some? ==> |r.value.1| == r.value.0.length
    ensures r.Some? ==> r.value.0.index < r.value.0.count <= 0xFFFF && r.value.0.total > 0
  {
    HeaderWidth();
    if |data| < HEADER_SIZE then None
    else
      var v := Unpack(FIELDS, data);
      UnpackFits(FIELDS, data);
      FieldSizes();
      if v[0] != MAGIC || v[1] != VERSION || (v[2] != 1 && v[2] != 2) then None
      else if v[7] == 0 || v[6] >= v[7] || v[5] == 0 then None
      else if HEADER_SIZE + v[8] != |data| then None
      else
        assert v[4] < Pow256(FIELDS[4]) && v[7] < Pow256(FIELDS[7]);
        Some((Header(if v[2] == 1 then Request else Response, v[4], v[5], v[6], v[7], v[8]), data[HEADER_SIZE..]))
  }

  lemma FrameFieldsFit(limit: nat, m: Message, i: nat)
    requires i < FragmentCount(|m.payload|, limit) && |Chunk(m.payload, Capacity(limit), i)| <= 0xFFFF
    ensures var vs := [MAGIC, VERSION, WireType(m.kind), 0, m.id, |m.payload|, i,
                       FragmentCount(|m.payload|, limit), |Chunk(m.payload, Capacity(limit), i)|];
            forall k :: 0 <= k < |FIELDS| ==> vs[k] < Pow256(FIELDS[k])
  {
    FieldSizes();
  }

  /** Parsing a built fragment recovers the message's identity, the index and the chunk. */
  lemma FrameParses(limit: nat, m: Message, i: nat)
    requires i < FragmentCount(|m.payload|, limit) && |Chunk(m.payload, Capacity(limit), i)| <= 0xFFFF
    ensures ParseFrame(Frame(limit, m, i))
         == Some((Header(m.kind, m.id, |m.payload|, i, FragmentCount(|m.payload|, limit),
                         |Chunk(m.payload, Capacity(limit), i)|), Chunk(m.payload, Capacity(limit), i)))
  {
    hide Pack, Unpack, Chunk, Pow256;
    var data := Chunk(m.payload, Capacity(limit), i);
    var vs := [MAGIC, VERSION, WireType(m.kind), 0, m.id, |m.payload|, i, FragmentCount(|m.payload|, limit), |data|];
    FrameFieldsFit(limit, m, i);
    PackReadsBack(FIELDS, vs, data);
    HeaderWidth();
    assert Frame(limit, m, i)[HEADER_SIZE..] == data;
  }

  /** A built fragment parses exactly when its length fits the 16-bit field. */
  lemma FrameParsesExactlyIfLengthFits(limit: nat, m: Message, i: nat)
    requires i < FragmentCount(|m.payload|, limit)
    ensures ParseFrame(Frame(limit, m, i)).Some? <==> |Chunk(m.payload, Capacity(limit), i)| <= 0xFFFF
  {
    hide Chunk, Pack;
    if |Chunk(m.payload, Capacity(limit), i)| <= 0xFFFF {
      FrameParses(limit, m, i);
    } else {
      hide Unpack;
      HeaderWidth();
      FieldSizes();
      UnpackFits(FIELDS, Frame(limit, m, i));
      assert Unpack(FIELDS, Frame(limit, m, i))[8] < Pow256(FIELDS[8]);
    }
  }

  /** `BuildFragments`: every frame of a message, in index order. */
  method BuildFragments(limit: nat, m: Message) returns (frames: seq<Bytes>)
    ensures |frames| == FragmentCount(|m.payload|, limit)
    ensures forall i :: 0 <= i < |frames| ==> frames[i] == Frame(limit, m, i)
  {
    frames := [];
    var count := FragmentCount(|m.payload|, limit);
    for i := 0 to count
      invariant |frames| == i
      invariant forall j :: 0 <= j < i ==> frames[j] == Frame(limit, m, j)
    {
      var frame := BuildFragment(limit, m, i);
      frames := frames + [frame];
    }
  }

  lemma CountIsChunkCount(size: nat, limit: nat)
    requires FragmentCount(size, limit) > 0
    ensures limit > HEADER_SIZE && FragmentCount(size, limit) == ChunkCount(size, Capacity(limit))
  {
  }

  /** A frame with offset and length as the source computes them. */
  lemma FrameSlice(limit: nat, m: Message, i: nat)
    requires i < FragmentCount(|m.payload|, limit)
    ensures limit > HEADER_SIZE && Start(Capacity(limit), i) < |m.payload|
    ensures var offset := Start(Capacity(limit), i);
            var length := if |m.payload| - offset < Capacity(limit) then |m.payload| - offset else Capacity(limit);
            Frame(limit, m, i)
            == Pack(FIELDS, [MAGIC, VERSION, WireType(m.kind), 0, m.id, |m.payload|, i,
                             FragmentCount(|m.payload|, limit), length]) + m.payload[offset..offset + length]
  {
    hide Pack, Chunk, FragmentCount, ChunkCount, Start;
    CountIsChunkCount(|m.payload|, limit);
    ChunkSlice(m.payload, limit - HEADER_SIZE, i);
  }

  method BuildFragment(limit: nat, m: Message, i: nat) returns (frame: Bytes)
    requires i < FragmentCount(|m.payload|, limit)
    ensures frame == Frame(limit, m, i)
  {
    hide Pack, Chunk, FragmentCount, Frame;
    var capacity := limit - HEADER_SIZE;
    FrameSlice(limit, m, i);
    var offset := capacity * i;
    var remaining := |m.payload| - offset;
    var length := if remaining < capacity then remaining else capacity;
    var header := Pack(FIELDS, [MAGIC, VERSION, WireType(m.kind), 0, m.id, |m.payload|, i,
                                FragmentCount(|m.payload|, limit), length]);
    frame := header + m.payload[offset..offset + length];
  }
}
