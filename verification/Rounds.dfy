/**
 * Counting rounds: which pieces of a message have been seen since it was last complete, and
 * how often it became complete. Shared by the three reassemblers; `piece` says what an
 * arrival brings of the message in question, the index of a piece or nothing.
 */
module Rounds {
  import opened Bytes
  import opened Chunks

  function Collect(seen: set<nat>, piece: Option<nat>, n: nat): set<nat> {
    if piece.None? then seen
    else if seen + {piece.value} == AllIndices(n) then {}
    else seen + {piece.value}
  }

  /** The arrival brings the last missing piece. */
  predicate Finishes(seen: set<nat>, piece: Option<nat>, n: nat) {
    piece.Some? && seen + {piece.value} == AllIndices(n)
  }

  function SeenAfter<A>(arrivals: seq<A>, piece: A -> Option<nat>, n: nat): set<nat> {
    if arrivals == [] then {}
    else Collect(SeenAfter(arrivals[..|arrivals| - 1], piece, n), piece(arrivals[|arrivals| - 1]), n)
  }

  /** One copy of the payload for every time the last missing piece arrived. */
  function Copies<A>(arrivals: seq<A>, piece: A -> Option<nat>, n: nat, payload: Bytes): seq<Bytes> {
    if arrivals == [] then []
    else
      var front, last := arrivals[..|arrivals| - 1], arrivals[|arrivals| - 1];
      Copies(front, piece, n, payload) + if Finishes(SeenAfter(front, piece, n), piece(last), n) then [payload] else []
  }
}
