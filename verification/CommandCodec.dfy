/**
 * Request and response payloads of the Command protocol
 * (src/ESPressio_ESPNowCommandProtocol.hpp). Parsers consume a prefix of their input and
 * hand on the rest; `Reader` is the cursor the source drives over the same grammar.
 */
module CommandCodec {
  import opened Bytes

  type Text = Bytes
  type Int32 = x: int | -0x8000_0000 <= x < 0x8000_0000

  const MAXIMUM_TEXT := 0xFFFF
  /** The smallest encoding of an invocation one of whose 16-bit counts overflows. */
  const SMALLEST_OVERFLOW := 131080

  /** A Command argument. `Native` is any non-string scalar with the text it is rendered as. */
  datatype CommandValue = Null | Str(text: Text) | Native(kind: nat, text: Text)

  datatype NamedValue = NamedValue(key: Text, value: CommandValue)

  /** What a caller invokes. `named` lists a keyed container in its iteration order. */
  datatype RawInvocation = RawInvocation(
    path: seq<Text>, positional: seq<CommandValue>, named: seq<NamedValue>, raw: Text)

  type Invocation = i: RawInvocation | DistinctKeys(i.named) witness RawInvocation([], [], [], [])

  predicate DistinctKeys(named: seq<NamedValue>) {
    forall i, j :: 0 <= i < j < |named| ==> named[i].key != named[j].key
  }

  /** What the receiving registry is given: every value as text. */
  datatype TextInvocation = TextInvocation(
    path: seq<Text>, positional: seq<Text>, named: map<Text, Text>, raw: Text)

  datatype CommandResult = CommandResult(success: bool, code: Int32, message: Text)

  // ---------------------------------------------------------------- encoding

  function TextOf(v: CommandValue): Text {
    if v.Null? then [] else v.text
  }

  function Texts(vs: seq<CommandValue>): (ts: seq<Text>)
    ensures |ts| == |vs| && forall i :: 0 <= i < |vs| ==> ts[i] == TextOf(vs[i])
  {
    seq(|vs|, i requires 0 <= i < |vs| => TextOf(vs[i]))
  }

  function Pairs(named: seq<NamedValue>): (ps: seq<(Text, Text)>)
    ensures |ps| == |named|
    ensures forall i :: 0 <= i < |named| ==> ps[i] == (named[i].key, TextOf(named[i].value))
  {
    seq(|named|, i requires 0 <= i < |named| => (named[i].key, TextOf(named[i].value)))
  }

  /** `emplace` keeps the first value seen for a key. */
  function EmplaceAll(ps: seq<(Text, Text)>): map<Text, Text> {
    if ps == [] then map[]
    else
      var m, last := EmplaceAll(ps[..|ps| - 1]), ps[|ps| - 1];
      if last.0 in m then m else m[last.0 := last.1]
  }

  /** The invocation the receiver should see: native kinds become their text. */
  function Normalise(inv: Invocation): TextInvocation {
    TextInvocation(inv.path, Texts(inv.positional), EmplaceAll(Pairs(inv.named)), inv.raw)
  }

  predicate FitsText(t: Text) { |t| <= MAXIMUM_TEXT }

  predicate FitsValue(v: CommandValue) { !v.Null? && FitsText(v.text) }

  predicate FitsNamed(item: NamedValue) { FitsText(item.key) && FitsValue(item.value) }

  /** What `EncodeRequest` accepts. The element counts are not checked. */
  predicate Encodable(inv: RawInvocation) {
    && inv.path != []
    && (forall i :: 0 <= i < |inv.path| ==> FitsText(inv.path[i]))
    && (forall i :: 0 <= i < |inv.positional| ==> FitsValue(inv.positional[i]))
    && (forall i :: 0 <= i < |inv.named| ==> FitsNamed(inv.named[i]))
    && FitsText(inv.raw)
  }

  predicate CountsFit(inv: RawInvocation) {
    |inv.path| <= 0xFFFF && |inv.positional| <= 0xFFFF && |inv.named| <= 0xFFFF
  }

  /** `AppendU16`: the value is cut to 16 bits without a check. */
  function U16(v: nat): (b: Bytes)
    ensures |b| == 2
  {
    [v % 256, v / 256 % 256]
  }

  function TextBytes(t: Text): Bytes { U16(|t|) + t }

  function PairBytes(p: (Text, Text)): Bytes { TextBytes(p.0) + TextBytes(p.1) }

  /** The encodings of `xs` one after another. */
  function EncodeMany<T>(enc: T -> Bytes, xs: seq<T>): Bytes {
    if xs == [] then [] else EncodeMany(enc, xs[..|xs| - 1]) + enc(xs[|xs| - 1])
  }

  /** A 16-bit count and that many elements. */
  function CountedBytes<T>(enc: T -> Bytes, xs: seq<T>): Bytes { U16(|xs|) + EncodeMany(enc, xs) }

  function RequestBytes(inv: RawInvocation): Bytes {
    CountedBytes(TextBytes, inv.path) + (CountedBytes(TextBytes, Texts(inv.positional)) +
    (CountedBytes(PairBytes, Pairs(inv.named)) + TextBytes(inv.raw)))
  }

  /** Two's complement of a 32-bit code. */
  function Unsigned32(code: Int32): nat {
    if code < 0 then code + 0x1_0000_0000 else code
  }

  function Signed32(v: nat): Int32
    requires v < 0x1_0000_0000
  {
    if v >= 0x8000_0000 then v - 0x1_0000_0000 else v
  }

  function ResponseBytes(r: CommandResult): Bytes {
    [if r.success then 1 else 0] + (LittleEndian(Unsigned32(r.code), 4) + TextBytes(r.message))
  }

  // ---------------------------------------------------------------- decoding

  function ParseU16(s: Bytes): Option<(nat, Bytes)> {
    if |s| < 2 then None else Some((s[0] as int + 256 * s[1] as int, s[2..]))
  }

  function ParseText(s: Bytes): Option<(Text, Bytes)> {
    match ParseU16(s)
    case None => None
    case Some((n, rest)) => if |rest| < n then None else Some((rest[..n], rest[n..]))
  }

  function ParsePair(s: Bytes): Option<((Text, Text), Bytes)> {
    match ParseText(s)
    case None => None
    case Some((k, rest)) =>
      match ParseText(rest)
      case None => None
      case Some((v, tail)) => Some(((k, v), tail))
  }

  /** `n` elements in a row. */
  function ParseMany<T>(parse: Bytes -> Option<(T, Bytes)>, n: nat, s: Bytes): (r: Option<(seq<T>, Bytes)>)
    ensures r.Some? ==> |r.value.0| == n
  {
    if n == 0 then Some(([], s))
    else
      match ParseMany(parse, n - 1, s)
      case None => None
      case Some((front, rest)) =>
        match parse(rest)
        case None => None
        case Some((last, tail)) => Some((front + [last], tail))
  }

  /** A 16-bit count and that many elements. */
  function ParseCounted<T>(parse: Bytes -> Option<(T, Bytes)>, s: Bytes): Option<(seq<T>, Bytes)> {
    match ParseU16(s)
    case None => None
    case Some((n, rest)) => ParseMany(parse, n, rest)
  }

  /** The grammar of a request, with whatever follows it. */
  function ParseTexts(s: Bytes): Option<(seq<Text>, Bytes)> { ParseCounted(ParseText, s) }

  function ParsePairs(s: Bytes): Option<(seq<(Text, Text)>, Bytes)> { ParseCounted(ParsePair, s) }

  function ParseRequest(s: Bytes): Option<(TextInvocation, Bytes)> {
    match ParseTexts(s)
    case None => None
    case Some((path, s1)) =>
      if path == [] then None else
      match ParseTexts(s1)
      case None => None
      case Some((positional, s2)) =>
        match ParsePairs(s2)
        case None => None
        case Some((named, s3)) =>
          match ParseText(s3)
          case None => None
          case Some((raw, s4)) => Some((TextInvocation(path, positional, EmplaceAll(named), raw), s4))
  }

  /** `DecodeRequest`: the payload must be consumed exactly. */
  function DecodeRequest(s: Bytes): Option<TextInvocation> {
    match ParseRequest(s)
    case None => None
    case Some((inv, rest)) => if rest == [] then Some(inv) else None
  }

  function DecodeResponse(s: Bytes): Option<CommandResult> {
    if |s| < 5 || s[0] > 1 then None
    else
      var v := FromLittleEndian(s[1..5]);
      match ParseText(s[5..])
      case None => None
      case Some((message, rest)) =>
        if rest != [] then None
        else WritesBack(s[1..5]); FieldSizes(); Some(CommandResult(s[0] != 0, Signed32(v), message))
  }

  // ---------------------------------------------------------------- round trips

  lemma U16ReadsBack(v: nat, rest: Bytes)
    ensures ParseU16(U16(v) + rest) == Some((v % 0x1_0000, rest))
  {
    var s := U16(v) + rest;
    assert s[2..] == rest;
  }

  lemma TextReadsBack(t: Text, rest: Bytes)
    requires FitsText(t)
    ensures ParseText(TextBytes(t) + rest) == Some((t, rest))
  {
    assert TextBytes(t) + rest == U16(|t|) + (t + rest);
    U16ReadsBack(|t|, t + rest);
    assert (t + rest)[..|t|] == t && (t + rest)[|t|..] == rest;
  }

  lemma PairReadsBack(p: (Text, Text), rest: Bytes)
    requires FitsText(p.0) && FitsText(p.1)
    ensures ParsePair(PairBytes(p) + rest) == Some((p, rest))
  {
    assert PairBytes(p) + rest == TextBytes(p.0) + (TextBytes(p.1) + rest);
    TextReadsBack(p.0, TextBytes(p.1) + rest);
    TextReadsBack(p.1, rest);
  }

  /** `parse` undoes `enc` on `x`, whatever follows. */
  ghost predicate Undoes<T>(parse: Bytes -> Option<(T, Bytes)>, enc: T -> Bytes, x: T) {
    forall rest: Bytes :: parse(enc(x) + rest) == Some((x, rest))
  }

  lemma {:induction false} ManyReadBack<T>(parse: Bytes -> Option<(T, Bytes)>, enc: T -> Bytes, xs: seq<T>, rest: Bytes)
    requires forall i :: 0 <= i < |xs| ==> Undoes(parse, enc, xs[i])
    ensures ParseMany(parse, |xs|, EncodeMany(enc, xs) + rest) == Some((xs, rest))
  {
    if xs == [] {
      assert EncodeMany(enc, xs) + rest == rest;
    } else {
      var front, last := xs[..|xs| - 1], xs[|xs| - 1];
      assert EncodeMany(enc, xs) + rest == EncodeMany(enc, front) + (enc(last) + rest);
      ManyReadBack(parse, enc, front, enc(last) + rest);
      assert Undoes(parse, enc, xs[|xs| - 1]);
      assert xs == front + [last];
    }
  }

  lemma CountedReadsBack<T>(parse: Bytes -> Option<(T, Bytes)>, enc: T -> Bytes, xs: seq<T>, rest: Bytes)
    requires |xs| <= 0xFFFF
    requires forall i :: 0 <= i < |xs| ==> Undoes(parse, enc, xs[i])
    ensures ParseCounted(parse, CountedBytes(enc, xs) + rest) == Some((xs, rest))
  {
    var body := EncodeMany(enc, xs) + rest;
    U16ReadsBack(|xs|, body);
    ManyReadBack(parse, enc, xs, rest);
    assert CountedBytes(enc, xs) + rest == U16(|xs|) + body;
  }

  /** Every element costs at least `least` bytes. */
  lemma {:induction false} ManySize<T>(enc: T -> Bytes, xs: seq<T>, least: nat)
    requires forall x: T :: |enc(x)| >= least
    ensures |EncodeMany(enc, xs)| >= least * |xs|
  {
    if xs != [] {
      ManySize(enc, xs[..|xs| - 1], least);
      assert least * |xs| == least * (|xs| - 1) + least;
    }
  }

  /** Anything short enough to be sent has counts that fit their unchecked 16-bit fields. */
  lemma ShortRequestsCountsFit(inv: Invocation)
    requires |RequestBytes(inv)| < SMALLEST_OVERFLOW
    ensures CountsFit(inv)
  {
    ManySize(TextBytes, inv.path, 2);
    ManySize(TextBytes, Texts(inv.positional), 2);
    ManySize(PairBytes, Pairs(inv.named), 4);
  }

  lemma TextsUndone(ts: seq<Text>)
    requires forall i :: 0 <= i < |ts| ==> FitsText(ts[i])
    ensures forall i :: 0 <= i < |ts| ==> Undoes(ParseText, TextBytes, ts[i])
  {
    forall i, rest: Bytes | 0 <= i < |ts| ensures ParseText(TextBytes(ts[i]) + rest) == Some((ts[i], rest)) {
      TextReadsBack(ts[i], rest);
    }
  }

  lemma PairsUndone(ps: seq<(Text, Text)>)
    requires forall i :: 0 <= i < |ps| ==> FitsText(ps[i].0) && FitsText(ps[i].1)
    ensures forall i :: 0 <= i < |ps| ==> Undoes(ParsePair, PairBytes, ps[i])
  {
    forall i, rest: Bytes | 0 <= i < |ps| ensures ParsePair(PairBytes(ps[i]) + rest) == Some((ps[i], rest)) {
      PairReadsBack(ps[i], rest);
    }
  }

  lemma RequestReadsBack(inv: Invocation)
    requires Encodable(inv) && CountsFit(inv)
    ensures ParseRequest(RequestBytes(inv)) == Some((Normalise(inv), []))
  {
    var s3 := TextBytes(inv.raw);
    var s2 := CountedBytes(PairBytes, Pairs(inv.named)) + s3;
    var s1 := CountedBytes(TextBytes, Texts(inv.positional)) + s2;
    TextsUndone(inv.path);
    CountedReadsBack(ParseText, TextBytes, inv.path, s1);
    TextsUndone(Texts(inv.positional));
    CountedReadsBack(ParseText, TextBytes, Texts(inv.positional), s2);
    PairsUndone(Pairs(inv.named));
    CountedReadsBack(ParsePair, PairBytes, Pairs(inv.named), s3);
    TextReadsBack(inv.raw, []);
    assert s3 + [] == s3;
  }

  lemma {:induction false} EmplaceSize(ps: seq<(Text, Text)>)
    ensures |EmplaceAll(ps)| <= |ps|
  {
    if ps != [] { EmplaceSize(ps[..|ps| - 1]); }
  }

  /** With distinct keys nothing is dropped: one entry per pair. */
  lemma {:induction false} EmplaceDistinct(ps: seq<(Text, Text)>)
    requires forall i, j :: 0 <= i < j < |ps| ==> ps[i].0 != ps[j].0
    ensures |EmplaceAll(ps)| == |ps|
    ensures forall k :: k in EmplaceAll(ps) ==> exists i :: 0 <= i < |ps| && ps[i].0 == k
  {
    if ps != [] {
      var front := ps[..|ps| - 1];
      EmplaceDistinct(front);
      assert ps[|ps| - 1].0 !in EmplaceAll(front);
      forall k | k in EmplaceAll(ps) ensures exists i :: 0 <= i < |ps| && ps[i].0 == k {
        if k in EmplaceAll(front) {
          var i :| 0 <= i < |front| && front[i].0 == k;
          assert ps[i].0 == k;
        } else {
          assert ps[|ps| - 1].0 == k;
        }
      }
    }
  }

  /** With distinct keys every pair is found under its key. */
  lemma {:induction false} EmplaceHolds(ps: seq<(Text, Text)>, i: nat)
    requires i < |ps| && forall i, j :: 0 <= i < j < |ps| ==> ps[i].0 != ps[j].0
    ensures ps[i].0 in EmplaceAll(ps) && EmplaceAll(ps)[ps[i].0] == ps[i].1
  {
    hide EmplaceAll;
    var n := |ps| - 1;
    var front := ps[..n];
    if i < n {
      EmplaceHolds(front, i);
      EmplaceFront(ps, ps[i].0);
    } else {
      EmplaceDistinct(front);
      forall k | k in EmplaceAll(front) ensures k != ps[n].0 {
        var j :| 0 <= j < |front| && front[j].0 == k;
        assert ps[j].0 == k;
      }
      EmplaceLast(ps);
    }
  }

  /** A later pair does not replace an earlier one. */
  lemma EmplaceFront(ps: seq<(Text, Text)>, k: Text)
    requires ps != [] && k in EmplaceAll(ps[..|ps| - 1])
    ensures k in EmplaceAll(ps) && EmplaceAll(ps)[k] == EmplaceAll(ps[..|ps| - 1])[k]
  {
  }

  lemma EmplaceLast(ps: seq<(Text, Text)>)
    requires ps != [] && ps[|ps| - 1].0 !in EmplaceAll(ps[..|ps| - 1])
    ensures ps[|ps| - 1].0 in EmplaceAll(ps) && EmplaceAll(ps)[ps[|ps| - 1].0] == ps[|ps| - 1].1
  {
  }

  lemma CountedSize<T>(parse: Bytes -> Option<(T, Bytes)>, s: Bytes)
    requires ParseCounted(parse, s).Some?
    ensures |ParseCounted(parse, s).value.0| <= 0xFFFF
  {
  }

  /** What `DecodeRequest` returns can never hold more than 65535 of anything. */
  lemma DecodedCountsFit(s: Bytes)
    requires DecodeRequest(s).Some?
    ensures |DecodeRequest(s).value.path| <= 0xFFFF
    ensures |DecodeRequest(s).value.positional| <= 0xFFFF
    ensures |DecodeRequest(s).value.named| <= 0xFFFF
  {
    CountedSize(ParseText, s);
    var Some((path, s1)) := ParseCounted(ParseText, s);
    CountedSize(ParseText, s1);
    var Some((positional, s2)) := ParseCounted(ParseText, s1);
    CountedSize(ParsePair, s2);
    var Some((named, s3)) := ParseCounted(ParsePair, s2);
    EmplaceSize(named);
  }

  /**
   * The request codec loses nothing but native kinds exactly when the three element counts
   * fit 16 bits; past that, the cut counts make the receiver see something else.
   */
  lemma RequestRoundTrip(inv: Invocation)
    requires Encodable(inv)
    ensures DecodeRequest(RequestBytes(inv)) == Some(Normalise(inv)) <==> CountsFit(inv)
  {
    if CountsFit(inv) {
      RequestReadsBack(inv);
    } else if DecodeRequest(RequestBytes(inv)) == Some(Normalise(inv)) {
      DecodedCountsFit(RequestBytes(inv));
      EmplaceDistinct(Pairs(inv.named));
      assert false;
    }
  }

  /** The normal form holds each named value under its key, as text, and no other key. */
  lemma NormaliseNames(inv: Invocation, i: nat)
    requires i < |inv.named|
    ensures var named := Normalise(inv).named;
            && |named| == |inv.named|
            && inv.named[i].key in named && named[inv.named[i].key] == TextOf(inv.named[i].value)
  {
    EmplaceDistinct(Pairs(inv.named));
    EmplaceHolds(Pairs(inv.named), i);
  }

  /** `SMALLEST_OVERFLOW` is sharp: 65536 empty path parts encode to it and do not decode. */
  lemma OverflowCounterexample()
    ensures exists inv: Invocation :: Encodable(inv) && |RequestBytes(inv)| == SMALLEST_OVERFLOW
                                      && DecodeRequest(RequestBytes(inv)).None?
  {
    var path: seq<Text> := seq(0x1_0000, _ => []);
    var inv: Invocation := RawInvocation(path, [], [], []);
    EmptyTextsSize(path);
    var s := RequestBytes(inv);
    var s1 := EncodeMany(TextBytes, path) + s[|CountedBytes(TextBytes, path)|..];
    assert s == U16(0x1_0000) + s1;
    U16ReadsBack(0x1_0000, s1);
    assert ParseCounted(ParseText, s) == Some(([], s1));
    assert Encodable(inv) && |s| == SMALLEST_OVERFLOW && DecodeRequest(s).None?;
  }

  lemma {:induction false} EmptyTextsSize(ts: seq<Text>)
    requires forall i :: 0 <= i < |ts| ==> ts[i] == []
    ensures |EncodeMany(TextBytes, ts)| == 2 * |ts|
  {
    if ts != [] { EmptyTextsSize(ts[..|ts| - 1]); }
  }

  // ---------------------------------------------------------------- prefix freedom

  /** `parse` reads the same element when more bytes follow its input. */
  ghost predicate Extends<T>(parse: Bytes -> Option<(T, Bytes)>) {
    forall s: Bytes, more: Bytes :: parse(s).Some? ==>
      parse(s + more) == Some((parse(s).value.0, parse(s).value.1 + more))
  }

  lemma TextExtends(s: Bytes, more: Bytes)
    requires ParseText(s).Some?
    ensures ParseText(s + more) == Some((ParseText(s).value.0, ParseText(s).value.1 + more))
  {
    var n := ParseU16(s).value.0;
    var rest := s[2..];
    assert (s + more)[2..] == rest + more;
    assert (rest + more)[..n] == rest[..n] && (rest + more)[n..] == rest[n..] + more;
  }

  lemma ElementsExtend()
    ensures Extends(ParseText) && Extends(ParsePair)
  {
    forall s: Bytes, more: Bytes | ParseText(s).Some?
      ensures ParseText(s + more) == Some((ParseText(s).value.0, ParseText(s).value.1 + more))
    {
      TextExtends(s, more);
    }
    forall s: Bytes, more: Bytes | ParsePair(s).Some?
      ensures ParsePair(s + more) == Some((ParsePair(s).value.0, ParsePair(s).value.1 + more))
    {
      TextExtends(s, more);
      TextExtends(ParseText(s).value.1, more);
    }
  }

  lemma {:induction false} ManyExtend<T>(parse: Bytes -> Option<(T, Bytes)>, n: nat, s: Bytes, more: Bytes)
    requires Extends(parse) && ParseMany(parse, n, s).Some?
    ensures ParseMany(parse, n, s + more)
            == Some((ParseMany(parse, n, s).value.0, ParseMany(parse, n, s).value.1 + more))
  {
    if n > 0 { ManyExtend(parse, n - 1, s, more); }
  }

  lemma CountedExtends<T>(parse: Bytes -> Option<(T, Bytes)>, s: Bytes, more: Bytes)
    requires Extends(parse) && ParseCounted(parse, s).Some?
    ensures ParseCounted(parse, s + more)
         == Some((ParseCounted(parse, s).value.0, ParseCounted(parse, s).value.1 + more))
  {
    assert (s + more)[2..] == s[2..] + more;
    ManyExtend(parse, ParseU16(s).value.0, s[2..], more);
  }

  /** No accepted request payload is a proper prefix of another accepted one. */
  lemma RequestsPrefixFree(x: Bytes, y: Bytes)
    requires DecodeRequest(x).Some? && DecodeRequest(y).Some? && x <= y
    ensures x == y
  {
    var more := y[|x|..];
    assert y == x + more;
    ElementsExtend();
    CountedExtends(ParseText, x, more);
    var Some((path, s1)) := ParseCounted(ParseText, x);
    CountedExtends(ParseText, s1, more);
    var Some((positional, s2)) := ParseCounted(ParseText, s1);
    CountedExtends(ParsePair, s2, more);
    var Some((named, s3)) := ParseCounted(ParsePair, s2);
    TextExtends(s3, more);
    assert ParseRequest(y).value.1 == [] + more;
  }

  // ---------------------------------------------------------------- responses

  /** Decoding inverts encoding for every 32-bit code and every message that has a length field. */
  lemma ResponseReadsBack(r: CommandResult)
    requires FitsText(r.message)
    ensures DecodeResponse(ResponseBytes(r)) == Some(r)
  {
    var s := ResponseBytes(r);
    FieldSizes();
    ReadsBack(Unsigned32(r.code), 4);
    assert s[1..5] == LittleEndian(Unsigned32(r.code), 4);
    assert s[5..] == TextBytes(r.message) + [];
    TextReadsBack(r.message, []);
  }

  /** Every byte string that decodes as a response is the encoding of what it decodes to. */
  lemma ResponseWritesBack(s: Bytes)
    requires DecodeResponse(s).Some?
    ensures FitsText(DecodeResponse(s).value.message)
    ensures ResponseBytes(DecodeResponse(s).value) == s
  {
    FieldSizes();
    WritesBack(s[1..5]);
    var r := DecodeResponse(s).value;
    assert Unsigned32(r.code) == FromLittleEndian(s[1..5]);
    var n := ParseU16(s[5..]).value.0;
    assert r.message == s[5..][2..][..n] && s[5..][2..][n..] == [] && |r.message| == n;
    assert s[5..] == U16(n) + s[5..][2..];
    assert s[5..] == TextBytes(r.message);
    assert s == [s[0]] + (s[1..5] + s[5..]);
  }

  // ---------------------------------------------------------------- the source's loops

  /** The cursor of src/ESPressio_ESPNowCommandProtocol.hpp:296-340. */
  class Reader {
    const data: Bytes
    var offset: nat

    ghost predicate Valid()
      reads this
    {
      offset <= |data|
    }

    ghost function Remaining(): Bytes
      reads this
      requires Valid()
    {
      data[offset..]
    }

    constructor (data: Bytes)
      ensures Valid() && this.data == data && Remaining() == data
    {
      this.data := data;
      offset := 0;
    }

    method ReadU8() returns (ok: bool, value: byte)
      requires Valid()
      modifies this
      ensures Valid()
      ensures ok == (|old(Remaining())| >= 1)
      ensures ok ==> value == old(Remaining())[0] && Remaining() == old(Remaining())[1..]
    {
      if offset + 1 > |data| { return false, 0; }
      value := data[offset];
      offset := offset + 1;
      ok := true;
    }

    method ReadU16() returns (ok: bool, value: nat)
      requires Valid()
      modifies this
      ensures Valid()
      ensures ok == ParseU16(old(Remaining())).Some?
      ensures ok ==> ParseU16(old(Remaining())) == Some((value, Remaining()))
    {
      if offset + 2 > |data| { return false, 0; }
      value := data[offset] as int + 256 * (data[offset + 1] as int);
      ghost var two := Remaining()[..2];
      assert two[1..][1..] == [];
      assert FromLittleEndian(two[1..]) == two[1];
      offset := offset + 2;
      ok := true;
    }

    method ReadI32() returns (ok: bool, value: Int32)
      requires Valid()
      modifies this
      ensures Valid()
      ensures ok == (|old(Remaining())| >= 4)
      ensures ok ==> FromLittleEndian(old(Remaining())[..4]) < 0x1_0000_0000
      ensures ok ==> value == Signed32(FromLittleEndian(old(Remaining())[..4]))
      ensures ok ==> Remaining() == old(Remaining())[4..]
    {
      if offset + 4 > |data| { return false, 0; }
      var v := data[offset] as int + 0x100 * (data[offset + 1] as int)
        + 0x1_0000 * (data[offset + 2] as int) + 0x100_0000 * (data[offset + 3] as int);
      ghost var four := Remaining()[..4];
      assert four[1..][1..] == four[2..] && four[2..][1..] == four[3..] && four[3..][1..] == [];
      assert FromLittleEndian(four[3..]) == four[3];
      assert FromLittleEndian(four[2..]) == four[2] as int + 256 * (four[3] as int);
      value := if v >= 0x8000_0000 then v - 0x1_0000_0000 else v;
      offset := offset + 4;
      ok := true;
    }

    method ReadText() returns (ok: bool, value: Text)
      requires Valid()
      modifies this
      ensures Valid()
      ensures ok == ParseText(old(Remaining())).Some?
      ensures ok ==> ParseText(old(Remaining())) == Some((value, Remaining()))
    {
      var got, length := ReadU16();
      if !got || offset + length > |data| { return false, []; }
      ghost var rest := Remaining();
      value := data[offset..offset + length];
      offset := offset + length;
      assert value == rest[..length] && Remaining() == rest[length..];
      ok := true;
    }

    /** A counted loop of `DecodeRequest`. */
    method ReadList() returns (ok: bool, values: seq<Text>)
      requires Valid()
      modifies this
      ensures Valid()
      ensures ok == ParseTexts(old(Remaining())).Some?
      ensures ok ==> ParseTexts(old(Remaining())) == Some((values, Remaining()))
    {
      var got, count := ReadU16();
      if !got { return false, []; }
      values := [];
      ghost var start := Remaining();
      for i := 0 to count
        invariant Valid()
        invariant ParseMany(ParseText, i, start) == Some((values, Remaining()))
      {
        var gotText, value := ReadText();
        if !gotText {
          ManyStops(ParseText, i + 1, count, start);
          return false, [];
        }
        values := values + [value];
      }
      ok := true;
    }

    method ReadNamed() returns (ok: bool, values: seq<(Text, Text)>)
      requires Valid()
      modifies this
      ensures Valid()
      ensures ok == ParsePairs(old(Remaining())).Some?
      ensures ok ==> ParsePairs(old(Remaining())) == Some((values, Remaining()))
    {
      var got, count := ReadU16();
      if !got { return false, []; }
      values := [];
      ghost var start := Remaining();
      for i := 0 to count
        invariant Valid()
        invariant ParseMany(ParsePair, i, start) == Some((values, Remaining()))
      {
        var gotPair, pair := ReadPair();
        if !gotPair {
          ManyStops(ParsePair, i + 1, count, start);
          return false, [];
        }
        values := values + [pair];
      }
      ok := true;
    }

    method ReadPair() returns (ok: bool, pair: (Text, Text))
      requires Valid()
      modifies this
      ensures Valid()
      ensures ok == ParsePair(old(Remaining())).Some?
      ensures ok ==> ParsePair(old(Remaining())) == Some((pair, Remaining()))
    {
      var gotKey, key := ReadText();
      if !gotKey { return false, ([], []); }
      var gotValue, value := ReadText();
      return gotValue, (key, value);
    }
  }

  /** A run that fails part way fails as a whole. */
  lemma {:induction false} ManyStops<T>(parse: Bytes -> Option<(T, Bytes)>, i: nat, n: nat, s: Bytes)
    requires i <= n && ParseMany(parse, i, s).None?
    ensures ParseMany(parse, n, s).None?
  {
    if i < n { ManyStops(parse, i, n - 1, s); }
  }

  method DecodeRequestLoop(payload: Bytes) returns (r: Option<TextInvocation>)
    ensures r == DecodeRequest(payload)
  {
    hide ParseTexts, ParseRequest;
    var reader := new Reader(payload);
    var ok, path := reader.ReadList();
    if !ok || path == [] {
      NoPath(payload);
      r := None;
    } else {
      r := DecodeValues(reader, payload, path);
    }
  }

  /** The request `s` from its positional values on. */
  method DecodeValues(reader: Reader, ghost s: Bytes, path: seq<Text>) returns (r: Option<TextInvocation>)
    requires reader.Valid() && ParseTexts(s) == Some((path, reader.Remaining())) && path != []
    modifies reader
    ensures r == DecodeRequest(s)
  {
    hide ParseTexts, ParseRequest;
    ghost var s1 := reader.Remaining();
    var ok, positional := reader.ReadList();
    if ok {
      r := DecodeNamed(reader, s, path, s1, positional);
    } else {
      NoRest(s, path, s1, [], []);
      r := None;
    }
  }

  /** The request `s` from its named values on. */
  method DecodeNamed(reader: Reader, ghost s: Bytes, path: seq<Text>, ghost s1: Bytes, positional: seq<Text>)
    returns (r: Option<TextInvocation>)
    requires reader.Valid() && ParseTexts(s) == Some((path, s1)) && path != []
    requires ParseTexts(s1) == Some((positional, reader.Remaining()))
    modifies reader
    ensures r == DecodeRequest(s)
  {
    hide ParseTexts, ParsePairs, ParseText, EmplaceAll, ParseRequest;
    ghost var s2 := reader.Remaining();
    NoRest(s, path, s1, positional, s2);
    var ok, named, raw;
    ok, named := reader.ReadNamed();
    ghost var s3 := reader.Remaining();
    if ok { ok, raw := reader.ReadText(); }
    r := None;
    if ok {
      RequestParts(s, path, s1, positional, s2, named, s3, raw, reader.Remaining());
      if reader.offset == |reader.data| { r := Some(TextInvocation(path, positional, EmplaceAll(named), raw)); }
    }
  }

  lemma NoPath(s: Bytes)
    requires ParseTexts(s).None? || ParseTexts(s).value.0 == []
    ensures ParseRequest(s).None?
  {
    hide ParseTexts, ParsePairs, ParseText;
  }

  /** Where the later parts stop. */
  lemma NoRest(s: Bytes, path: seq<Text>, s1: Bytes, positional: seq<Text>, s2: Bytes)
    requires ParseTexts(s) == Some((path, s1)) && path != []
    ensures ParseTexts(s1).None? ==> ParseRequest(s).None?
    ensures ParseTexts(s1) == Some((positional, s2)) && ParsePairs(s2).None? ==> ParseRequest(s).None?
    ensures (ParseTexts(s1) == Some((positional, s2)) && ParsePairs(s2).Some?
             && ParseText(ParsePairs(s2).value.1).None?) ==>
              ParseRequest(s).None?
  {
    hide ParseTexts, ParsePairs, ParseText;
  }

  lemma RequestParts(s: Bytes, path: seq<Text>, s1: Bytes, positional: seq<Text>, s2: Bytes,
                     named: seq<(Text, Text)>, s3: Bytes, raw: Text, s4: Bytes)
    requires ParseTexts(s) == Some((path, s1)) && path != []
    requires ParseTexts(s1) == Some((positional, s2))
    requires ParsePairs(s2) == Some((named, s3))
    requires ParseText(s3) == Some((raw, s4))
    ensures ParseRequest(s) == Some((TextInvocation(path, positional, EmplaceAll(named), raw), s4))
  {
    hide ParseTexts, ParsePairs, ParseText, EmplaceAll;
  }

  method DecodeResponseLoop(payload: Bytes) returns (r: Option<CommandResult>)
    ensures r == DecodeResponse(payload)
  {
    hide ParseText;
    if |payload| < 5 { return None; }
    var reader := new Reader(payload);
    var ok, success, code, message;
    ok, success := reader.ReadU8();
    if !ok || success > 1 { return None; }
    assert payload[1..][..4] == payload[1..5] && payload[1..][4..] == payload[5..];
    ok, code := reader.ReadI32();
    if !ok { return None; }
    ok, message := reader.ReadText();
    if !ok || reader.offset != |payload| { return None; }
    return Some(CommandResult(success != 0, code, message));
  }

  method AppendTexts(output: Bytes, texts: seq<Text>) returns (ok: bool, extended: Bytes)
    ensures ok == forall i :: 0 <= i < |texts| ==> FitsText(texts[i])
    ensures ok ==> extended == output + CountedBytes(TextBytes, texts)
  {
    hide EncodeMany, U16, TextBytes;
    extended := output + U16(|texts|);
    AppendNone(output, U16(|texts|), TextBytes, texts);
    for i := 0 to |texts|
      invariant forall j :: 0 <= j < i ==> FitsText(texts[j])
      invariant extended == output + (U16(|texts|) + EncodeMany(TextBytes, texts[..i]))
    {
      if |texts[i]| > 0xFFFF { assert !FitsText(texts[i]); return false, extended; }
      AppendStep(output, U16(|texts|), TextBytes, texts, i);
      extended := extended + TextBytes(texts[i]);
    }
    assert texts[..|texts|] == texts;
    ok := true;
  }

  /** One more element on the way through an append loop. */
  lemma AppendStep<T>(output: Bytes, count: Bytes, enc: T -> Bytes, xs: seq<T>, i: nat)
    requires i < |xs|
    ensures (output + (count + EncodeMany(enc, xs[..i]))) + enc(xs[i])
            == output + (count + EncodeMany(enc, xs[..i + 1]))
  {
    assert xs[..i + 1][..i] == xs[..i];
  }

  lemma AppendNone<T>(output: Bytes, count: Bytes, enc: T -> Bytes, xs: seq<T>)
    ensures output + (count + EncodeMany(enc, xs[..0])) == output + count
  {
  }

  method AppendValues(output: Bytes, values: seq<CommandValue>) returns (ok: bool, extended: Bytes)
    ensures ok == forall i :: 0 <= i < |values| ==> FitsValue(values[i])
    ensures ok ==> extended == output + CountedBytes(TextBytes, Texts(values))
  {
    hide EncodeMany, U16, TextBytes;
    extended := output + U16(|values|);
    ghost var texts := Texts(values);
    AppendNone(output, U16(|values|), TextBytes, texts);
    for i := 0 to |values|
      invariant forall j :: 0 <= j < i ==> FitsValue(values[j])
      invariant extended == output + (U16(|values|) + EncodeMany(TextBytes, texts[..i]))
    {
      if values[i].Null? || |values[i].text| > 0xFFFF { assert !FitsValue(values[i]); return false, extended; }
      AppendStep(output, U16(|values|), TextBytes, texts, i);
      extended := extended + TextBytes(values[i].text);
    }
    assert texts[..|texts|] == texts;
    ok := true;
  }

  method AppendNamed(output: Bytes, named: seq<NamedValue>) returns (ok: bool, extended: Bytes)
    ensures ok == forall i :: 0 <= i < |named| ==> FitsNamed(named[i])
    ensures ok ==> extended == output + CountedBytes(PairBytes, Pairs(named))
  {
    hide EncodeMany, U16, PairBytes;
    extended := output + U16(|named|);
    ghost var pairs := Pairs(named);
    AppendNone(output, U16(|named|), PairBytes, pairs);
    for i := 0 to |named|
      invariant forall j :: 0 <= j < i ==> FitsNamed(named[j])
      invariant extended == output + (U16(|named|) + EncodeMany(PairBytes, pairs[..i]))
    {
      var item := named[i];
      if |item.key| > 0xFFFF || item.value.Null? || |item.value.text| > 0xFFFF {
        assert !FitsNamed(named[i]);
        return false, extended;
      }
      AppendStep(output, U16(|named|), PairBytes, pairs, i);
      extended := extended + PairBytes((item.key, item.value.text));
    }
    assert pairs[..|pairs|] == pairs;
    ok := true;
  }

  lemma Regroup(a: Bytes, b: Bytes, c: Bytes, d: Bytes)
    ensures (([] + a) + b) + c + d == a + (b + (c + d))
  {
  }

  /** `EncodeRequest`: appends as it goes and gives up at the first part with no wire form. */
  method EncodeRequestLoop(inv: Invocation) returns (ok: bool, output: Bytes)
    ensures ok == Encodable(inv)
    ensures ok ==> output == RequestBytes(inv)
  {
    output := [];
    if inv.path == [] { return false, output; }
    ok, output := AppendTexts([], inv.path);
    if !ok { return; }
    ok, output := AppendValues(output, inv.positional);
    if !ok { return; }
    ok, output := AppendNamed(output, inv.named);
    if !ok || |inv.raw| > 0xFFFF { return false, output; }
    Regroup(CountedBytes(TextBytes, inv.path), CountedBytes(TextBytes, Texts(inv.positional)),
            CountedBytes(PairBytes, Pairs(inv.named)), TextBytes(inv.raw));
    output := output + TextBytes(inv.raw);
  }
}
