/** The packed receipt bitmap of a reassembly (src/ESPressio_ESPNowCommandEndpoint.hpp:377-394). */
module ReceiptBitmap {
  type Bitmap = seq<bv8>

  /** `1u << (index & 7u)` */
  function Mask(index: nat): bv8 {
    match index % 8
    case 0 => 0x01
    case 1 => 0x02
    case 2 => 0x04
    case 3 => 0x08
    case 4 => 0x10
    case 5 => 0x20
    case 6 => 0x40
    case _ => 0x80
  }

  predicate Set(b: bv8, mask: bv8) { b & mask != 0 }

  function With(b: bv8, mask: bv8): bv8 { b | mask }

  function BitmapBytes(count: nat): nat { (count + 7) / 8 }

  function Empty(count: nat): (bits: Bitmap)
    ensures |bits| == BitmapBytes(count)
  {
    seq(BitmapBytes(count), _ => 0)
  }

  predicate IsReceived(bits: Bitmap, index: nat) {
    index / 8 < |bits| && Set(bits[index / 8], Mask(index))
  }

  function MarkReceived(bits: Bitmap, index: nat): (r: Bitmap)
    ensures |r| == |bits|
  {
    if index / 8 < |bits| then bits[index / 8 := With(bits[index / 8], Mask(index))] else bits
  }

  /** The set of indices the bitmap stands for. */
  ghost function Indices(bits: Bitmap): (s: set<nat>)
    ensures forall i :: i in s <==> IsReceived(bits, i)
  {
    set i: nat | 0 <= i < 8 * |bits| && IsReceived(bits, i)
  }

  lemma OrSetsOneBit(b: bv8, i: nat, j: nat)
    ensures Set(With(b, Mask(i)), Mask(j)) <==> Set(b, Mask(j)) || i % 8 == j % 8
  {
    var m, n := Mask(i), Mask(j);
    assert (b | m) & n == (b & n) | (m & n);
    assert m & n != 0 <==> i % 8 == j % 8;
  }

  lemma EmptyIsEmpty(count: nat)
    ensures Indices(Empty(count)) == {}
  {
    forall i: nat ensures !IsReceived(Empty(count), i) {
      assert (0 as bv8) & Mask(i) == 0;
    }
  }

  lemma SameBit(i: nat, j: nat)
    requires i / 8 == j / 8
    ensures i % 8 == j % 8 <==> i == j
  {
  }

  lemma MarkAt(bits: Bitmap, index: nat, j: nat)
    requires index / 8 < |bits|
    ensures IsReceived(MarkReceived(bits, index), j) <==> IsReceived(bits, j) || j == index
  {
    hide Mask, Set, With;
    if j / 8 == index / 8 {
      SameBit(index, j);
      OrSetsOneBit(bits[index / 8], index, j);
    }
  }

  /** Setting one bit adds exactly one index. */
  lemma MarkAdds(bits: Bitmap, index: nat)
    requires index / 8 < |bits|
    ensures Indices(MarkReceived(bits, index)) == Indices(bits) + {index}
  {
    hide IsReceived, MarkReceived;
    forall j: nat ensures IsReceived(MarkReceived(bits, index), j) <==> IsReceived(bits, j) || j == index {
      MarkAt(bits, index, j);
    }
  }
}
