/** Byte strings and the little-endian integers every ESP-NOW wire format is made of. */
module Bytes {
  type byte = x: int | 0 <= x < 256
  type Bytes = seq<byte>

  type U64 = x: nat | x < 0x1_0000_0000_0000_0000

  /** A MAC address, read as a 48-bit number. */
  type Addr = a: nat | a < 0x1_0000_0000_0000

  datatype Option<+T> = None | Some(value: T)

  /** The number of values a `width`-byte unsigned field can hold. */
  function Pow256(width: nat): (p: nat)
    ensures p > 0
  {
    if width == 0 then 1 else 256 * Pow256(width - 1)
  }

  lemma FieldSizes()
    ensures Pow256(1) == 0x100 && Pow256(2) == 0x1_0000 && Pow256(4) == 0x1_0000_0000
    ensures Pow256(8) == 0x1_0000_0000_0000_0000
  {
    assert Pow256(3) == 256 * Pow256(2) && Pow256(2) == 256 * Pow256(1);
    assert Pow256(8) == 256 * Pow256(7) && Pow256(7) == 256 * Pow256(6);
    assert Pow256(6) == 256 * Pow256(5) && Pow256(5) == 256 * Pow256(4);
  }

  function LittleEndian(v: nat, width: nat): (b: Bytes)
    ensures |b| == width
  {
    if width == 0 then [] else [v % 256] + LittleEndian(v / 256, width - 1)
  }

  function FromLittleEndian(b: Bytes): nat {
    if b == [] then 0 else b[0] + 256 * FromLittleEndian(b[1..])
  }

  /** Reading a field back gives the value written, reduced to the field's width. */
  lemma {:induction false} ReadsBack(v: nat, width: nat)
    requires v < Pow256(width)
    ensures FromLittleEndian(LittleEndian(v, width)) == v
  {
    if width > 0 {
      var b := LittleEndian(v, width);
      assert b[1..] == LittleEndian(v / 256, width - 1);
      ReadsBack(v / 256, width - 1);
    }
  }

  /** Every byte string is the encoding of the number it reads as. */
  lemma {:induction false} WritesBack(b: Bytes)
    ensures FromLittleEndian(b) < Pow256(|b|)
    ensures LittleEndian(FromLittleEndian(b), |b|) == b
  {
    if b != [] {
      WritesBack(b[1..]);
      var v := FromLittleEndian(b);
      assert v % 256 == b[0] && v / 256 == FromLittleEndian(b[1..]);
      assert b == [b[0]] + b[1..];
    }
  }

  // ---------------------------------------------------------------- packed structs

  /** Total size of a packed struct whose fields have these byte widths. */
  function Width(ws: seq<nat>): nat {
    if ws == [] then 0 else ws[0] + Width(ws[1..])
  }

  /** A packed little-endian struct; a value too wide for its field is cut. */
  function Pack(ws: seq<nat>, vs: seq<nat>): (b: Bytes)
    requires |ws| == |vs|
    ensures |b| == Width(ws)
  {
    if ws == [] then [] else LittleEndian(vs[0], ws[0]) + Pack(ws[1..], vs[1..])
  }

  function Unpack(ws: seq<nat>, b: Bytes): (vs: seq<nat>)
    requires |b| >= Width(ws)
    ensures |vs| == |ws|
  {
    if ws == [] then [] else [FromLittleEndian(b[..ws[0]])] + Unpack(ws[1..], b[ws[0]..])
  }

  lemma {:induction false} PackReadsBack(ws: seq<nat>, vs: seq<nat>, rest: Bytes)
    requires |ws| == |vs| && forall i :: 0 <= i < |ws| ==> vs[i] < Pow256(ws[i])
    ensures Unpack(ws, Pack(ws, vs) + rest) == vs
  {
    if ws != [] {
      var tail := Pack(ws[1..], vs[1..]) + rest;
      var b := Pack(ws, vs) + rest;
      assert b[..ws[0]] == LittleEndian(vs[0], ws[0]) && b[ws[0]..] == tail;
      ReadsBack(vs[0], ws[0]);
      PackReadsBack(ws[1..], vs[1..], rest);
      assert vs == [vs[0]] + vs[1..];
    }
  }

  lemma {:induction false} UnpackFits(ws: seq<nat>, b: Bytes)
    requires |b| >= Width(ws)
    ensures forall i :: 0 <= i < |ws| ==> Unpack(ws, b)[i] < Pow256(ws[i])
  {
    if ws != [] {
      WritesBack(b[..ws[0]]);
      UnpackFits(ws[1..], b[ws[0]..]);
      forall i | 0 < i < |ws| ensures Unpack(ws, b)[i] < Pow256(ws[i]) {
        assert Unpack(ws, b)[i] == Unpack(ws[1..], b[ws[0]..])[i - 1] && ws[i] == ws[1..][i - 1];
      }
    }
  }

  /** Packing what was unpacked gives the bytes back. */
  lemma {:induction false} UnpackWritesBack(ws: seq<nat>, b: Bytes)
    requires |b| >= Width(ws)
    ensures Pack(ws, Unpack(ws, b)) == b[..Width(ws)]
  {
    if ws != [] {
      hide LittleEndian, FromLittleEndian, Pow256;
      var w, rest := ws[0], b[ws[0]..];
      WritesBack(b[..w]);
      UnpackWritesBack(ws[1..], rest);
      var vs := Unpack(ws, b);
      assert vs[0] == FromLittleEndian(b[..w]) && vs[1..] == Unpack(ws[1..], rest);
      assert Pack(ws, vs) == b[..w] + rest[..Width(ws[1..])];
    }
  }
}
