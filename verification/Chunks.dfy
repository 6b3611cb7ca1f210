/**
 * Splitting a payload into equal chunks and putting it together again. The three
 * reassemblers of the library all copy chunk `i` to offset `capacity * i`.
 */
module Chunks {
  import opened Bytes

  function ChunkCount(size: nat, capacity: nat): nat
    requires capacity > 0
  {
    (size + capacity - 1) / capacity
  }

  function Start(capacity: nat, i: nat): nat { capacity * i }

  function Length(size: nat, capacity: nat, i: nat): nat
    requires Start(capacity, i) <= size
  {
    var left := size - Start(capacity, i);
    if left < capacity then left else capacity
  }

  lemma {:induction false} Steps(capacity: nat, i: nat, j: nat)
    requires i < j
    ensures Start(capacity, i) + capacity == Start(capacity, i + 1) <= Start(capacity, j)
    decreases j
  {
    assert capacity * (i + 1) == capacity * i + capacity;
    if i + 1 < j {
      Steps(capacity, i, j - 1);
      assert capacity * j == capacity * (j - 1) + capacity;
    }
  }

  lemma CountBounds(size: nat, capacity: nat)
    requires capacity > 0 && size > 0
    ensures ChunkCount(size, capacity) > 0
    ensures Start(capacity, ChunkCount(size, capacity) - 1) < size <= Start(capacity, ChunkCount(size, capacity))
  {
    var q := (size + capacity - 1) / capacity;
    var r := (size + capacity - 1) % capacity;
    assert size + capacity - 1 == capacity * q + r;
    assert q == 0 ==> capacity * q == 0;
    assert capacity * (q - 1) == capacity * q - capacity;
  }

  /** Every chunk below the count starts inside the payload; all but the last are full. */
  lemma ChunkBounds(size: nat, capacity: nat, i: nat)
    requires capacity > 0 && i < ChunkCount(size, capacity)
    ensures Start(capacity, i) < size
    ensures 0 < Length(size, capacity, i) <= capacity
    ensures i + 1 < ChunkCount(size, capacity) ==> Length(size, capacity, i) == capacity
    ensures i + 1 == ChunkCount(size, capacity) ==> Start(capacity, i) + Length(size, capacity, i) == size
  {
    if size > 0 {
      CountBounds(size, capacity);
      var last := ChunkCount(size, capacity) - 1;
      Steps(capacity, last, last + 1);
      if i < last { Steps(capacity, i, last); }
    }
  }

  function Chunk(payload: Bytes, capacity: nat, i: nat): (c: Bytes)
    requires capacity > 0 && i < ChunkCount(|payload|, capacity)
    ensures 0 < |c| <= capacity
  {
    ChunkBounds(|payload|, capacity, i);
    payload[Start(capacity, i)..Start(capacity, i) + Length(|payload|, capacity, i)]
  }

  /** Offset and length as the send loops compute them. */
  lemma ChunkSlice(payload: Bytes, capacity: nat, i: nat)
    requires capacity > 0 && i < ChunkCount(|payload|, capacity)
    ensures var offset := Start(capacity, i);
            && offset < |payload|
            && Chunk(payload, capacity, i)
               == payload[offset..offset + (if |payload| - offset < capacity then |payload| - offset else capacity)]
  {
    hide ChunkCount, Start;
    ChunkBounds(|payload|, capacity, i);
  }

  // ---------------------------------------------------------------- receiving

  /** `std::copy` of `data` to `offset`. */
  function Overwrite(buffer: Bytes, offset: nat, data: Bytes): (b: Bytes)
    requires offset + |data| <= |buffer|
    ensures |b| == |buffer|
    ensures b[offset..offset + |data|] == data
    ensures forall k :: 0 <= k < |b| && !(offset <= k < offset + |data|) ==> b[k] == buffer[k]
  {
    var b := buffer[..offset] + data + buffer[offset + |data|..];
    assert b[offset..offset + |data|] == data;
    b
  }

  function AllIndices(count: nat): (s: set<nat>)
    ensures forall i :: i in s <==> 0 <= i < count
  {
    if count == 0 then {} else AllIndices(count - 1) + {count - 1}
  }

  /** The buffer holds chunk `i` of `payload` in its place. */
  ghost predicate Holds(buffer: Bytes, payload: Bytes, capacity: nat, i: nat)
    requires capacity > 0
  {
    && |buffer| == |payload|
    && i < ChunkCount(|payload|, capacity)
    && Start(capacity, i) + |Chunk(payload, capacity, i)| <= |buffer|
    && buffer[Start(capacity, i)..Start(capacity, i) + |Chunk(payload, capacity, i)|] == Chunk(payload, capacity, i)
  }

  ghost predicate HoldsAll(buffer: Bytes, payload: Bytes, capacity: nat, received: set<nat>)
    requires capacity > 0
  {
    |buffer| == |payload| && forall i :: i in received ==> Holds(buffer, payload, capacity, i)
  }

  /** Copying one more chunk disturbs none of the others. */
  lemma CopyKeeps(buffer: Bytes, payload: Bytes, capacity: nat, received: set<nat>, i: nat)
    requires capacity > 0 && i < ChunkCount(|payload|, capacity)
    requires HoldsAll(buffer, payload, capacity, received)
    ensures Start(capacity, i) + |Chunk(payload, capacity, i)| <= |buffer|
    ensures HoldsAll(Overwrite(buffer, Start(capacity, i), Chunk(payload, capacity, i)),
                     payload, capacity, received + {i})
  {
    ChunkBounds(|payload|, capacity, i);
    var b := Overwrite(buffer, Start(capacity, i), Chunk(payload, capacity, i));
    assert Holds(b, payload, capacity, i);
    forall j | j in received && j != i ensures Holds(b, payload, capacity, j) {
      CopyApart(buffer, payload, capacity, i, j);
    }
  }

  lemma CopyApart(buffer: Bytes, payload: Bytes, capacity: nat, i: nat, j: nat)
    requires capacity > 0 && i < ChunkCount(|payload|, capacity) && i != j && Holds(buffer, payload, capacity, j)
    requires Start(capacity, i) + |Chunk(payload, capacity, i)| <= |buffer|
    ensures Holds(Overwrite(buffer, Start(capacity, i), Chunk(payload, capacity, i)), payload, capacity, j)
  {
    hide Start, ChunkCount, Overwrite, Chunk;
    if i < j { Steps(capacity, i, j); } else { Steps(capacity, j, i); }
    var b := Overwrite(buffer, Start(capacity, i), Chunk(payload, capacity, i));
    var from, to := Start(capacity, j), Start(capacity, j) + |Chunk(payload, capacity, j)|;
    assert b[from..to] == buffer[from..to];
  }

  /** Once every chunk is in place the buffer is the payload. */
  lemma BufferIsPayload(buffer: Bytes, payload: Bytes, capacity: nat)
    requires capacity > 0 && HoldsAll(buffer, payload, capacity, AllIndices(ChunkCount(|payload|, capacity)))
    ensures buffer == payload
  {
    hide Start, ChunkCount, Length;
    forall k | 0 <= k < |payload| ensures buffer[k] == payload[k] {
      var i := ChunkAt(|payload|, capacity, k);
      var from := Start(capacity, i);
      assert Holds(buffer, payload, capacity, i);
      assert buffer[from..from + |Chunk(payload, capacity, i)|][k - from] == Chunk(payload, capacity, i)[k - from];
    }
  }

  /** The chunk a byte belongs to. */
  lemma ChunkAt(size: nat, capacity: nat, k: nat) returns (i: nat)
    requires capacity > 0 && k < size
    ensures i < ChunkCount(size, capacity) && Start(capacity, i) <= size
    ensures Start(capacity, i) <= k < Start(capacity, i) + Length(size, capacity, i) <= size
  {
    i := k / capacity;
    assert k == capacity * i + k % capacity;
    CountBounds(size, capacity);
    var n := ChunkCount(size, capacity);
    assert i < n by {
      if n < i { Steps(capacity, n, i); }
    }
    ChunkBounds(size, capacity, i);
  }

  /** Total length of the chunks below `n` that have been received. */
  ghost function ReceivedBytes(received: set<nat>, size: nat, capacity: nat, n: nat): nat
    requires capacity > 0 && n <= ChunkCount(size, capacity)
  {
    if n == 0 then 0
    else
      ChunkBounds(size, capacity, n - 1);
      ReceivedBytes(received, size, capacity, n - 1) + if n - 1 in received then Length(size, capacity, n - 1) else 0
  }

  lemma {:induction false} ReceivedBytesAdd(received: set<nat>, i: nat, size: nat, capacity: nat, n: nat)
    requires capacity > 0 && n <= ChunkCount(size, capacity) && i !in received && i < ChunkCount(size, capacity)
    ensures Start(capacity, i) <= size
    ensures ReceivedBytes(received + {i}, size, capacity, n)
         == ReceivedBytes(received, size, capacity, n) + if i < n then Length(size, capacity, i) else 0
  {
    ChunkBounds(size, capacity, i);
    if n > 0 { ReceivedBytesAdd(received, i, size, capacity, n - 1); }
  }

  lemma {:induction false} ReceivedBytesFull(received: set<nat>, size: nat, capacity: nat, n: nat)
    requires capacity > 0 && n <= ChunkCount(size, capacity) && AllIndices(n) <= received
    ensures ReceivedBytes(received, size, capacity, n)
         == if n == ChunkCount(size, capacity) then size else Start(capacity, n)
  {
    if n > 0 {
      assert AllIndices(n - 1) <= received;
      ReceivedBytesFull(received, size, capacity, n - 1);
      ChunkBounds(size, capacity, n - 1);
      Steps(capacity, n - 1, n);
      assert n - 1 in AllIndices(n);
    } else if size > 0 {
      CountBounds(size, capacity);
    }
  }

  // ---------------------------------------------------------------- cardinalities

  lemma {:induction false} AllIndicesSize(count: nat)
    ensures |AllIndices(count)| == count
  {
    if count > 0 {
      AllIndicesSize(count - 1);
      assert count - 1 !in AllIndices(count - 1);
    }
  }

  lemma {:induction false} SubsetSize<T>(a: set<T>, b: set<T>)
    requires a <= b
    ensures |a| <= |b|
    ensures |a| == |b| ==> a == b
  {
    if a != {} {
      var x :| x in a;
      SubsetSize(a - {x}, b - {x});
      assert a == (a - {x}) + {x} && b == (b - {x}) + {x};
    }
  }

  /** Counting received indices is enough to know that all of them are there. */
  lemma CountMeansAll(received: set<nat>, count: nat)
    requires received <= AllIndices(count)
    ensures |received| <= count
    ensures |received| == count <==> received == AllIndices(count)
  {
    AllIndicesSize(count);
    SubsetSize(received, AllIndices(count));
  }
}
