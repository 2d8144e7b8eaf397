/** Byte strings: big-endian integers, ASCII case and UTF-8 (RFC 3629). */
module Bytes {
  import opened Wrappers

  type byte = x: int | 0 <= x < 256

  function U16(v: nat): (bytes: seq<byte>)
    requires v < 0x1_0000
  {
    [v / 256, v % 256]
  }

  function U32(v: nat): (bytes: seq<byte>)
    requires v < 0x1_0000_0000
  {
    [v / 0x100_0000, v / 0x1_0000 % 256, v / 256 % 256, v % 256]
  }

  /** `packet.get(offset..offset + 2)` decoded big-endian. */
  function ReadU16(packet: seq<byte>, offset: nat): (r: Option<nat>)
    ensures r.Some? <==> offset + 2 <= |packet|
    ensures r.Some? ==> r.value < 0x1_0000
  {
    if offset + 2 <= |packet| then
      var b0: nat, b1: nat := packet[offset], packet[offset + 1];
      Some(b0 * 256 + b1)
    else None
  }

  function ReadU32(packet: seq<byte>, offset: nat): (r: Option<nat>)
    ensures r.Some? <==> offset + 4 <= |packet|
    ensures r.Some? ==> r.value < 0x1_0000_0000
  {
    if offset + 4 <= |packet| then
      var b0: nat, b1: nat, b2: nat, b3: nat :=
        packet[offset], packet[offset + 1], packet[offset + 2], packet[offset + 3];
      Some(b0 * 0x100_0000 + b1 * 0x1_0000 + b2 * 256 + b3)
    else None
  }

  /** What was appended big-endian is read back, wherever it lies in the packet. */
  lemma ReadU16Back(packet: seq<byte>, offset: nat, v: nat)
    requires v < 0x1_0000 && offset + 2 <= |packet|
    requires packet[offset..offset + 2] == U16(v)
    ensures ReadU16(packet, offset) == Some(v)
  {
    assert packet[offset] == packet[offset..offset + 2][0];
    assert packet[offset + 1] == packet[offset..offset + 2][1];
  }

  lemma U32Digits(v: nat)
    ensures v / 0x100_0000 * 0x100_0000 + v / 0x1_0000 % 256 * 0x1_0000 + v / 256 % 256 * 256 + v % 256 == v
  {
    assert v / 0x1_0000 == v / 256 / 256;
    assert v / 0x100_0000 == v / 0x1_0000 / 256;
  }

  lemma ReadU32Back(packet: seq<byte>, offset: nat, v: nat)
    requires v < 0x1_0000_0000 && offset + 4 <= |packet|
    requires packet[offset..offset + 4] == U32(v)
    ensures ReadU32(packet, offset) == Some(v)
  {
    U32Digits(v);
    var four := packet[offset..offset + 4];
    assert packet[offset] == four[0] && packet[offset + 1] == four[1];
    assert packet[offset + 2] == four[2] && packet[offset + 3] == four[3];
  }

  function LowerByte(b: byte): (l: byte) {
    if 65 <= b <= 90 then b + 32 else b
  }

  /** `to_ascii_lowercase`. */
  function Lower(s: seq<byte>): (r: seq<byte>)
    ensures |r| == |s|
  {
    seq(|s|, i requires 0 <= i < |s| => LowerByte(s[i]))
  }

  predicate Continuation(b: byte) { 0x80 <= b <= 0xBF }

  /** The length a lead byte announces; 0 for a byte that starts no character. */
  function LeadLength(b: byte): nat {
    if b < 0x80 then 1
    else if 0xC2 <= b <= 0xDF then 2
    else if 0xE0 <= b <= 0xEF then 3
    else if 0xF0 <= b <= 0xF4 then 4
    else 0
  }

  /** Second bytes that exclude overlong forms, surrogates and values above U+10FFFF. */
  predicate SecondOk(lead: byte, second: byte) {
    if lead == 0xE0 then 0xA0 <= second <= 0xBF
    else if lead == 0xED then 0x80 <= second <= 0x9F
    else if lead == 0xF0 then 0x90 <= second <= 0xBF
    else if lead == 0xF4 then 0x80 <= second <= 0x8F
    else Continuation(second)
  }

  /** Length of the well-formed character at the front of `s`, or 0. */
  function CharLength(s: seq<byte>): (n: nat)
    ensures n <= |s|
  {
    if s == [] then 0
    else
      var n := LeadLength(s[0]);
      if n <= 1 then n
      else if |s| >= n && SecondOk(s[0], s[1]) && (n > 2 ==> Continuation(s[2])) && (n > 3 ==> Continuation(s[3]))
      then n
      else 0
  }

  /** `std::str::from_utf8(s).is_ok()`. */
  predicate ValidUtf8(s: seq<byte>) {
    s == [] || (CharLength(s) > 0 && ValidUtf8(s[CharLength(s)..]))
  }

  lemma {:induction false} AsciiIsUtf8(s: seq<byte>)
    requires forall i :: 0 <= i < |s| ==> s[i] < 128
    ensures ValidUtf8(s)
  {
    if s != [] {
      AsciiIsUtf8(s[1..]);
    }
  }

  // ----- what is well-formed -----

  /** Unicode scalar values. */
  predicate Scalar(v: nat) { v < 0xD800 || 0xE000 <= v < 0x11_0000 }

  /** The encoding of section 3 of RFC 3629. */
  function Utf8(v: nat): (s: seq<byte>)
    requires Scalar(v)
    ensures 1 <= |s| <= 4
  {
    if v < 0x80 then [v]
    else if v < 0x800 then [0xC0 + v / 64, 0x80 + v % 64]
    else if v < 0x1_0000 then [0xE0 + v / 64 / 64, 0x80 + v / 64 % 64, 0x80 + v % 64]
    else [0xF0 + v / 64 / 64 / 64, 0x80 + v / 64 / 64 % 64, 0x80 + v / 64 % 64, 0x80 + v % 64]
  }

  /** `s` begins with the encoding of `v`. */
  predicate BeginsWith(s: seq<byte>, v: nat) { Scalar(v) && Utf8(v) <= s }

  lemma EncodedChar(s: seq<byte>, v: nat)
    requires BeginsWith(s, v)
    ensures CharLength(s) == |Utf8(v)|
  {
    var e := Utf8(v);
    assert s[0] == e[0] && (|e| > 1 ==> s[1] == e[1]) && (|e| > 2 ==> s[2] == e[2]) && (|e| > 3 ==> s[3] == e[3]);
  }

  lemma Digits64(high: nat, low: nat)
    requires low < 64
    ensures (high * 64 + low) / 64 == high && (high * 64 + low) % 64 == low
  {
  }

  lemma TwoBytes(s: seq<byte>) returns (v: nat)
    requires CharLength(s) == 2
    ensures BeginsWith(s, v) && |Utf8(v)| == 2
  {
    var a: nat, b: nat := s[0] as int - 0xC0, s[1] as int - 0x80;
    v := a * 64 + b;
    Digits64(a, b);
    assert s[..2] == Utf8(v);
  }

  lemma ThreeBytes(s: seq<byte>) returns (v: nat)
    requires CharLength(s) == 3
    ensures BeginsWith(s, v) && |Utf8(v)| == 3
  {
    var a: nat, b: nat, c: nat := s[0] as int - 0xE0, s[1] as int - 0x80, s[2] as int - 0x80;
    v := (a * 64 + b) * 64 + c;
    Digits64(a * 64 + b, c);
    Digits64(a, b);
    assert 0x800 <= v < 0x1_0000 && !(0xD800 <= v < 0xE000);
    assert s[..3] == Utf8(v);
  }

  lemma FourBytes(s: seq<byte>) returns (v: nat)
    requires CharLength(s) == 4
    ensures BeginsWith(s, v) && |Utf8(v)| == 4
  {
    var a: nat, b: nat, c: nat, d: nat :=
      s[0] as int - 0xF0, s[1] as int - 0x80, s[2] as int - 0x80, s[3] as int - 0x80;
    v := ((a * 64 + b) * 64 + c) * 64 + d;
    Digits64((a * 64 + b) * 64 + c, d);
    Digits64(a * 64 + b, c);
    Digits64(a, b);
    assert 0x1_0000 <= v < 0x11_0000;
    assert s[..4] == Utf8(v);
  }

  /** The scalar value of the character at the front. */
  lemma DecodedChar(s: seq<byte>) returns (v: nat)
    requires CharLength(s) > 0
    ensures BeginsWith(s, v) && |Utf8(v)| == CharLength(s)
  {
    match CharLength(s)
    case 1 => v := s[0];
    case 2 => v := TwoBytes(s);
    case 3 => v := ThreeBytes(s);
    case _ => v := FourBytes(s);
  }

  function Utf8All(vs: seq<nat>): seq<byte>
    requires forall i :: 0 <= i < |vs| ==> Scalar(vs[i])
  {
    if vs == [] then [] else Utf8(vs[0]) + Utf8All(vs[1..])
  }

  /** Valid are exactly the encodings of sequences of scalar values. */
  lemma {:induction false} EncodingIsValid(vs: seq<nat>)
    requires forall i :: 0 <= i < |vs| ==> Scalar(vs[i])
    ensures ValidUtf8(Utf8All(vs))
  {
    if vs != [] {
      var s := Utf8All(vs);
      EncodedChar(s, vs[0]);
      assert s[|Utf8(vs[0])|..] == Utf8All(vs[1..]);
      EncodingIsValid(vs[1..]);
    }
  }

  lemma {:induction false} ValidIsEncoding(s: seq<byte>) returns (vs: seq<nat>)
    requires ValidUtf8(s)
    ensures (forall i :: 0 <= i < |vs| ==> Scalar(vs[i])) && s == Utf8All(vs)
    decreases |s|
  {
    if s == [] {
      vs := [];
    } else {
      var v, piece, others := FirstChar(s);
      var rest := ValidIsEncoding(others);
      vs := [v] + rest;
      EncodedFirst(v, piece, rest, others);
    }
  }

  lemma FirstChar(s: seq<byte>) returns (v: nat, piece: seq<byte>, others: seq<byte>)
    requires s != [] && ValidUtf8(s)
    ensures s == piece + others && |others| < |s| && Scalar(v) && piece == Utf8(v) && ValidUtf8(others)
  {
    v := DecodedChar(s);
    piece, others := s[..CharLength(s)], s[CharLength(s)..];
  }

  lemma EncodedFirst(v: nat, piece: seq<byte>, rest: seq<nat>, others: seq<byte>)
    requires Scalar(v) && piece == Utf8(v) && (forall i :: 0 <= i < |rest| ==> Scalar(rest[i]))
    requires others == Utf8All(rest)
    ensures forall i :: 0 <= i < |[v] + rest| ==> Scalar(([v] + rest)[i])
    ensures Utf8All([v] + rest) == piece + others
  {
    assert ([v] + rest)[1..] == rest;
  }
}
