/**
 * The bytes on the air: which frames each of the three fragment formats takes, where its
 * fields are, and how Command payloads look, byte by byte
 * (src/ESPressio_ESPNowCommandProtocol.hpp:28-54, 172-246,
 * src/ESPressio_ESPNowSecurityProtocol.hpp, src/ESPressio_ESPNowEventTransport.hpp:72-113).
 */
module WireFormats {
  import opened Bytes
  import opened CommandCodec
  import opened CommandFragments
  import EventReceiver
  import SecureFragments

  // ---------------------------------------------------------------- packed structs

  /** Where field `i` of a packed struct begins. */
  function Offset(ws: seq<nat>, i: nat): nat
    requires i <= |ws|
  {
    if i == 0 then 0 else Offset(ws, i - 1) + ws[i - 1]
  }

  lemma {:induction false} OffsetShift(ws: seq<nat>, i: nat)
    requires 0 < i <= |ws|
    ensures Offset(ws, i) == ws[0] + Offset(ws[1..], i - 1)
  {
    if i > 1 { OffsetShift(ws, i - 1); }
  }

  /** Unpacking reads each field where it is. */
  lemma {:induction false} FieldAt(ws: seq<nat>, b: Bytes, i: nat)
    requires |b| >= Width(ws) && i < |ws|
    ensures Offset(ws, i) + ws[i] <= |b|
    ensures Unpack(ws, b)[i] == FromLittleEndian(b[Offset(ws, i)..Offset(ws, i) + ws[i]])
  {
    hide FromLittleEndian;
    if i > 0 {
      OffsetShift(ws, i);
      FieldAt(ws[1..], b[ws[0]..], i - 1);
      var from, w := Offset(ws[1..], i - 1), ws[i];
      assert b[ws[0]..][from..from + w] == b[ws[0] + from..ws[0] + from + w];
    }
  }

  function U16At(b: Bytes, k: nat): nat
    requires k + 2 <= |b|
  {
    b[k] as nat + 256 * b[k + 1] as nat
  }

  function U32At(b: Bytes, k: nat): nat
    requires k + 4 <= |b|
  {
    U16At(b, k) + 65536 * U16At(b, k + 2)
  }

  function U64At(b: Bytes, k: nat): nat
    requires k + 8 <= |b|
  {
    U32At(b, k) + 4294967296 * U32At(b, k + 4)
  }

  /** The number in `w` bytes from `k` on, the least significant byte first. */
  lemma Reads(b: Bytes, k: nat)
    ensures k + 1 <= |b| ==> FromLittleEndian(b[k..k + 1]) == b[k]
    ensures k + 2 <= |b| ==> FromLittleEndian(b[k..k + 2]) == U16At(b, k)
    ensures k + 4 <= |b| ==> FromLittleEndian(b[k..k + 4]) == U32At(b, k)
    ensures k + 8 <= |b| ==> FromLittleEndian(b[k..k + 8]) == U64At(b, k)
  {
    if k + 1 <= |b| { ReadsOne(b, k, 1); }
    if k + 2 <= |b| { ReadsTwo(b, k); }
    if k + 4 <= |b| { ReadsFour(b, k); }
    if k + 8 <= |b| {
      ReadsFour(b, k + 4);
      hide FromLittleEndian;
      ReadsOne(b, k, 8);
      ReadsOne(b, k + 1, 7);
      ReadsOne(b, k + 2, 6);
      ReadsOne(b, k + 3, 5);
    }
  }

  lemma ReadsOne(b: Bytes, k: nat, w: nat)
    requires 0 < w && k + w <= |b|
    ensures FromLittleEndian(b[k..k + w]) == b[k] + 256 * FromLittleEndian(b[k + 1..k + w])
  {
    assert b[k..k + w][1..] == b[k + 1..k + w];
  }

  lemma ReadsTwo(b: Bytes, k: nat)
    requires k + 2 <= |b|
    ensures FromLittleEndian(b[k..k + 2]) == U16At(b, k)
  {
    ReadsOne(b, k, 2);
    ReadsOne(b, k + 1, 1);
  }

  lemma ReadsFour(b: Bytes, k: nat)
    requires k + 4 <= |b|
    ensures FromLittleEndian(b[k..k + 4]) == U32At(b, k)
  {
    ReadsTwo(b, k + 2);
    hide FromLittleEndian;
    ReadsOne(b, k, 4);
    ReadsOne(b, k + 1, 3);
  }

  // ---------------------------------------------------------------- Command frames

  /** The frames the Command protocol takes, and what it reads from them. */
  lemma CommandFrameExactly(b: Bytes)
    ensures ParseFrame(b).Some? <==>
              (|b| >= 26 && U32At(b, 0) == 0x45434D44 && b[4] == 1 && (b[5] == 1 || b[5] == 2)
               && U32At(b, 16) != 0 && U16At(b, 20) < U16At(b, 22) && 26 + U16At(b, 24) == |b|)
    ensures ParseFrame(b).Some? ==>
              ParseFrame(b).value == (Header(if b[5] == 1 then Request else Response, U64At(b, 8), U32At(b, 16),
                                             U16At(b, 20), U16At(b, 22), U16At(b, 24)), b[26..])
  {
    hide Unpack;
    if |b| >= 26 { CommandFields(b); }
  }

  lemma CommandFields(b: Bytes)
    requires |b| >= 26
    ensures Width(CommandFragments.FIELDS) == 26
    ensures var v := Unpack(CommandFragments.FIELDS, b);
            && v[0] == U32At(b, 0) && v[1] == b[4] && v[2] == b[5] && v[4] == U64At(b, 8) && v[5] == U32At(b, 16)
            && v[6] == U16At(b, 20) && v[7] == U16At(b, 22) && v[8] == U16At(b, 24)
  {
    hide Unpack, Width, FromLittleEndian, U16At, U32At, U64At;
    CommandFragments.HeaderWidth();
    var ws := CommandFragments.FIELDS;
    assert Offset(ws, 1) == 4 && Offset(ws, 2) == 5 && Offset(ws, 3) == 6;
    assert Offset(ws, 4) == 8 && Offset(ws, 5) == 16 && Offset(ws, 6) == 20;
    assert Offset(ws, 7) == 22 && Offset(ws, 8) == 24;
    forall i | 0 <= i < |ws|
      ensures Offset(ws, i) + ws[i] <= |b|
      ensures Unpack(ws, b)[i] == FromLittleEndian(b[Offset(ws, i)..Offset(ws, i) + ws[i]])
    {
      FieldAt(ws, b, i);
    }
    Reads(b, 0);
    Reads(b, 4);
    Reads(b, 5);
    Reads(b, 8);
    Reads(b, 16);
    Reads(b, 20);
    Reads(b, 22);
    Reads(b, 24);
  }

  // ---------------------------------------------------------------- secure fragments

  /** The fragments the security protocol takes, and what it reads from them. */
  lemma SecureFrameExactly(b: Bytes)
    ensures SecureFragments.Decode(b).Some? <==>
              (|b| >= 15 && U32At(b, 0) == 0x53454345 && b[4] == 1 && U16At(b, 11) < U16At(b, 13) <= 8 && |b| <= 242)
    ensures SecureFragments.Decode(b).Some? ==>
              SecureFragments.Decode(b).value
              == SecureFragments.Fragment(b[6], U32At(b, 7), U16At(b, 11), U16At(b, 13), b[15..])
  {
    hide Unpack;
    if |b| >= 15 { SecureFields(b); }
  }

  lemma SecureFields(b: Bytes)
    requires |b| >= 15
    ensures Width(SecureFragments.FIELDS) == 15
    ensures var v := Unpack(SecureFragments.FIELDS, b);
            && v[0] == U32At(b, 0) && v[1] == b[4] && v[3] == b[6] && v[4] == U32At(b, 7)
            && v[5] == U16At(b, 11) && v[6] == U16At(b, 13)
  {
    hide Unpack, Width, FromLittleEndian, U16At, U32At, U64At;
    SecureFragments.HeaderWidth();
    var ws := SecureFragments.FIELDS;
    assert Offset(ws, 1) == 4 && Offset(ws, 2) == 5 && Offset(ws, 3) == 6;
    assert Offset(ws, 4) == 7 && Offset(ws, 5) == 11 && Offset(ws, 6) == 13;
    forall i | 0 <= i < |ws|
      ensures Offset(ws, i) + ws[i] <= |b|
      ensures Unpack(ws, b)[i] == FromLittleEndian(b[Offset(ws, i)..Offset(ws, i) + ws[i]])
    {
      FieldAt(ws, b, i);
    }
    Reads(b, 0);
    Reads(b, 4);
    Reads(b, 6);
    Reads(b, 7);
    Reads(b, 11);
    Reads(b, 13);
  }

  // ---------------------------------------------------------------- Event fragments

  /** The fragments the Event transport takes, and what it reads from them. */
  lemma EventFrameExactly(b: Bytes, c: EventReceiver.Limits)
    ensures EventReceiver.Parse(b, c).Some? <==>
              (|b| >= 24 && U32At(b, 0) == 0x45564E57 && b[4] == 1 && U16At(b, 6) < U16At(b, 8)
               && (U16At(b, 8) - 1) * 218 < c.maxPacket && U16At(b, 10) <= 218 && 24 + U16At(b, 10) <= |b|
               && 0 < U32At(b, 12) <= c.maxPacket && U16At(b, 6) * 218 + U16At(b, 10) <= U32At(b, 12))
    ensures EventReceiver.Parse(b, c).Some? ==>
              EventReceiver.Parse(b, c).value
              == EventReceiver.Fragment(U64At(b, 16), U16At(b, 6), U16At(b, 8), U32At(b, 12), b[24..24 + U16At(b, 10)])
  {
    hide Unpack;
    if |b| >= 24 {
      EventFields(b);
      if U16At(b, 8) > 0 { AtMostFragments(U16At(b, 8), c.maxPacket); }
    }
  }

  lemma AtMostFragments(count: nat, maxPacket: nat)
    requires count > 0
    ensures count <= (maxPacket + 217) / 218 <==> (count - 1) * 218 < maxPacket
  {
  }

  lemma EventFields(b: Bytes)
    requires |b| >= 24
    ensures Width(EventReceiver.FIELDS) == 24
    ensures var v := Unpack(EventReceiver.FIELDS, b);
            && v[0] == U32At(b, 0) && v[1] == b[4] && v[3] == U16At(b, 6) && v[4] == U16At(b, 8)
            && v[5] == U16At(b, 10) && v[6] == U32At(b, 12) && v[7] == U64At(b, 16)
  {
    hide Unpack, Width, FromLittleEndian, U16At, U32At, U64At;
    EventReceiver.HeaderWidth();
    var ws := EventReceiver.FIELDS;
    assert Offset(ws, 1) == 4 && Offset(ws, 2) == 5 && Offset(ws, 3) == 6;
    assert Offset(ws, 4) == 8 && Offset(ws, 5) == 10 && Offset(ws, 6) == 12 && Offset(ws, 7) == 16;
    forall i | 0 <= i < |ws|
      ensures Offset(ws, i) + ws[i] <= |b|
      ensures Unpack(ws, b)[i] == FromLittleEndian(b[Offset(ws, i)..Offset(ws, i) + ws[i]])
    {
      FieldAt(ws, b, i);
    }
    Reads(b, 0);
    Reads(b, 4);
    Reads(b, 6);
    Reads(b, 8);
    Reads(b, 10);
    Reads(b, 12);
    Reads(b, 16);
  }

  // ---------------------------------------------------------------- Command payloads

  /** A response, byte by byte: the flag, the code in two's complement, the length of the text, the text. */
  lemma ResponseLayout(r: CommandResult)
    requires |r.message| <= 65535
    ensures var b := ResponseBytes(r);
            && |b| == 7 + |r.message| && b[0] == (if r.success then 1 else 0)
            && U32At(b, 1) == (if r.code >= 0 then r.code else 4294967296 + r.code)
            && U16At(b, 5) == |r.message| && b[7..] == r.message
  {
    hide LittleEndian;
    var b := ResponseBytes(r);
    FieldSizes();
    ReadsBack(Unsigned32(r.code), 4);
    assert b[1..5] == LittleEndian(Unsigned32(r.code), 4);
    ReadsFour(b, 1);
  }

  /** A request, byte by byte, on one with each part once. */
  lemma RequestLayout(p: byte, q: byte, k: byte, v: byte, x: byte)
    ensures RequestBytes(RawInvocation([[p]], [Str([q])], [NamedValue([k], Native(0, [v]))], [x]))
         == [1, 0, 1, 0, p, 1, 0, 1, 0, q, 1, 0, 1, 0, k, 1, 0, v, 1, 0, x]
  {
    OneElement(TextBytes, [p]);
    OneElement(TextBytes, [q]);
    OneElement(PairBytes, ([k], [v]));
    assert Texts([Str([q])]) == [[q]];
    assert Pairs([NamedValue([k], Native(0, [v]))]) == [([k], [v])];
  }

  lemma OneElement<T>(enc: T -> Bytes, x: T)
    ensures CountedBytes(enc, [x]) == [1, 0] + enc(x)
  {
    assert EncodeMany(enc, [x]) == EncodeMany(enc, []) + enc(x);
  }
}
