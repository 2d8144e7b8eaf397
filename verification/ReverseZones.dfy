/**
 Octet-aligned reverse zones of a CIDR (`reverse_zones_for_cidr`; section 3.5 of RFC 1035).
 */
module ReverseZones {
  import opened Wrappers
  import opened Text
  import opened Ipv4

  datatype CidrError = InvalidCidr | NotNetworkAddress

  const REVERSE_DOMAIN := "in-addr.arpa"

  // ----- parsing -----

  /** `str::split_once`. */
  function SplitOnce(s: string, sep: char): (r: Option<(string, string)>) {
    if s == "" then None
    else if s[0] == sep then Some(("", s[1..]))
    else
      match SplitOnce(s[1..], sep)
      case None => None
      case Some(pair) => Some(([s[0]] + pair.0, pair.1))
  }

  function ParseOctets(parts: seq<string>): (r: Option<seq<nat>>)
    ensures r.Some? ==> |r.value| == |parts| && forall i :: 0 <= i < |parts| ==> r.value[i] < 256
  {
    if parts == [] then Some([])
    else
      var head, tail := ParseUnsigned(parts[0], 255), ParseOctets(parts[1..]);
      if head.Some? && tail.Some? then Some([head.value] + tail.value) else None
  }

  /** The checked CIDR: a network address and a prefix from /8 through /30. */
  function ParseCidr(cidr: string): (r: Result<Cidr, CidrError>)
    ensures r.Ok? ==> 8 <= r.value.prefix <= 30 && r.value.Canonical()
  {
    var halves := SplitOnce(cidr, '/');
    if halves.None? then Err(InvalidCidr)
    else
      var prefix, octets := ParseUnsigned(halves.value.1, 0xFFFF_FFFF), ParseOctets(Split(halves.value.0, '.'));
      if prefix.None? || !(8 <= prefix.value <= 30) || octets.None? || |octets.value| != 4 then Err(InvalidCidr)
      else
        var o := octets.value;
        var block := Cidr(o[0] * 0x100_0000 + o[1] * 0x1_0000 + o[2] * 256 + o[3], prefix.value);
        if !block.Canonical() then Err(NotNetworkAddress) else Ok(block)
  }

  // ----- the zones -----

  function ZoneOctets(prefix: nat): nat { if (prefix + 7) / 8 < 3 then (prefix + 7) / 8 else 3 }

  function ZoneCount(prefix: nat): nat {
    if prefix >= ZoneOctets(prefix) * 8 then 1 else Pow2(ZoneOctets(prefix) * 8 - prefix)
  }

  function Stride(prefix: nat): nat { Pow2(32 - ZoneOctets(prefix) * 8) }

  function Octets(x: nat): seq<nat> { [x / 0x100_0000, x / 0x1_0000 % 256, x / 256 % 256, x % 256] }

  function ReversedDecimals(octets: seq<nat>): (labels: seq<string>)
    ensures |labels| == |octets|
  {
    if octets == [] then [] else ReversedDecimals(octets[1..]) + [Decimal(octets[0])]
  }

  /** The network address of zone `index`, computed with 32-bit wrap-around. */
  function ZoneBase(block: Cidr, index: nat): nat
    requires block.prefix <= 30
  {
    (block.addr + index * Stride(block.prefix)) % 0x1_0000_0000
  }

  function ZoneName(block: Cidr, index: nat): string
    requires 8 <= block.prefix <= 30
  {
    Join(ReversedDecimals(Octets(ZoneBase(block, index))[..ZoneOctets(block.prefix)]), '.') + "." + REVERSE_DOMAIN
  }

  function ReverseZonesForCidr(cidr: string): Result<seq<string>, CidrError> {
    var block :- ParseCidr(cidr);
    Ok(seq(ZoneCount(block.prefix), index requires 0 <= index => ZoneName(block, index)))
  }

  // ----- the texts -----

  /** `a.b.c.d/prefix`. */
  function CidrText(a: nat, b: nat, c: nat, d: nat, prefix: nat): string {
    Decimal(a) + "." + Decimal(b) + "." + Decimal(c) + "." + Decimal(d) + "/" + Decimal(prefix)
  }

  lemma {:induction false} SplitOnceAt(head: string, tail: string, sep: char)
    requires sep !in head
    ensures SplitOnce(head + [sep] + tail, sep) == Some((head, tail))
  {
    if head == "" {
      assert (head + [sep] + tail)[1..] == tail;
    } else {
      assert (head + [sep] + tail)[1..] == head[1..] + [sep] + tail;
      SplitOnceAt(head[1..], tail, sep);
      assert [head[0]] + head[1..] == head;
    }
  }

  lemma FourJoined(a: string, b: string, c: string, d: string)
    ensures Join([a, b, c, d], '.') == a + "." + b + "." + c + "." + d
  {
    assert Join([c, d], '.') == c + "." + d by { assert [c, d][1..] == [d]; }
    assert [b, c, d][1..] == [c, d] && [a, b, c, d][1..] == [b, c, d];
  }

  lemma FourSplit(a: string, b: string, c: string, d: string)
    requires '.' !in a && '.' !in b && '.' !in c && '.' !in d
    ensures Split(a + "." + b + "." + c + "." + d, '.') == [a, b, c, d]
  {
    SplitJoin([a, b, c, d], '.');
    FourJoined(a, b, c, d);
  }

  lemma NoSeparators(n: nat)
    ensures '.' !in Decimal(n) && '/' !in Decimal(n)
  {
    DecimalHasNo(n, '.');
    DecimalHasNo(n, '/');
  }

  lemma NoSlash(a: string, b: string, c: string, d: string)
    requires '/' !in a && '/' !in b && '/' !in c && '/' !in d
    ensures '/' !in a + "." + b + "." + c + "." + d
  {
  }

  lemma DottedParts(a: nat, b: nat, c: nat, d: nat)
    ensures
      var dotted := Decimal(a) + "." + Decimal(b) + "." + Decimal(c) + "." + Decimal(d);
      Split(dotted, '.') == [Decimal(a), Decimal(b), Decimal(c), Decimal(d)] && '/' !in dotted
  {
    NoSeparators(a);
    NoSeparators(b);
    NoSeparators(c);
    NoSeparators(d);
    FourSplit(Decimal(a), Decimal(b), Decimal(c), Decimal(d));
    NoSlash(Decimal(a), Decimal(b), Decimal(c), Decimal(d));
  }

  function Decimals(octets: seq<nat>): (texts: seq<string>)
    ensures |texts| == |octets|
  {
    seq(|octets|, i requires 0 <= i < |octets| => Decimal(octets[i]))
  }

  lemma {:induction false} DecimalsParse(octets: seq<nat>)
    requires forall i :: 0 <= i < |octets| ==> octets[i] < 256
    ensures ParseOctets(Decimals(octets)) == Some(octets)
  {
    if octets != [] {
      assert ParseUnsigned(Decimal(octets[0]), 255) == Some(octets[0]) by { ParseDecimal(octets[0], 255); }
      DecimalsParse(octets[1..]);
      assert Decimals(octets) == [Decimal(octets[0])] + Decimals(octets[1..]);
      assert Decimals(octets)[1..] == Decimals(octets[1..]);
      assert [octets[0]] + octets[1..] == octets;
    }
  }

  lemma OctetsParse(a: nat, b: nat, c: nat, d: nat)
    requires a < 256 && b < 256 && c < 256 && d < 256
    ensures ParseOctets([Decimal(a), Decimal(b), Decimal(c), Decimal(d)]) == Some([a, b, c, d])
  {
    DecimalsParse([a, b, c, d]);
    assert Decimals([a, b, c, d]) == [Decimal(a), Decimal(b), Decimal(c), Decimal(d)];
  }

  /** A dotted quad with a prefix is read most significant octet first; it is accepted exactly if
      the prefix is /8 to /30 and no host bit is set. */
  lemma CidrTextParses(a: nat, b: nat, c: nat, d: nat, prefix: nat)
    requires a < 256 && b < 256 && c < 256 && d < 256 && prefix < 0x1_0000_0000
    ensures
      var address := a * 0x100_0000 + b * 0x1_0000 + c * 0x100 + d;
      ParseCidr(CidrText(a, b, c, d, prefix))
        == if prefix < 8 || prefix > 30 then Err(InvalidCidr)
           else if address % Pow2(32 - prefix) != 0 then Err(NotNetworkAddress)
           else Ok(Cidr(address, prefix))
  {
    var dotted := Decimal(a) + "." + Decimal(b) + "." + Decimal(c) + "." + Decimal(d);
    DottedParts(a, b, c, d);
    SplitOnceAt(dotted, Decimal(prefix), '/');
    assert CidrText(a, b, c, d, prefix) == dotted + ['/'] + Decimal(prefix);
    OctetsParse(a, b, c, d);
    ParseDecimal(prefix, 0xFFFF_FFFF);
  }

  lemma {:induction false} SplitOnceJoins(s: string, sep: char)
    requires SplitOnce(s, sep).Some?
    ensures SplitOnce(s, sep).value.0 + [sep] + SplitOnce(s, sep).value.1 == s && sep !in SplitOnce(s, sep).value.0
  {
    if s[0] != sep {
      SplitOnceJoins(s[1..], sep);
      assert s == [s[0]] + s[1..];
    }
  }

  lemma {:induction false} ParsedOctets(parts: seq<string>, i: nat)
    requires ParseOctets(parts).Some? && i < |parts|
    ensures ParseUnsigned(parts[i], 255) == Some(ParseOctets(parts).value[i])
  {
    if i > 0 {
      ParsedOctets(parts[1..], i - 1);
    }
  }

  /** Every accepted text is four octets and a prefix, which are what is read. */
  lemma AcceptedCidrText(cidr: string) returns (parts: seq<string>, prefix: string, o: seq<nat>)
    requires ParseCidr(cidr).Ok?
    ensures |parts| == 4 && cidr == Join(parts, '.') + "/" + prefix && |o| == 4
    ensures forall i :: 0 <= i < 4 ==> ParseUnsigned(parts[i], 255) == Some(o[i])
    ensures ParseCidr(cidr).value.addr == o[0] * 0x100_0000 + o[1] * 0x1_0000 + o[2] * 0x100 + o[3]
    ensures ParseUnsigned(prefix, 0xFFFF_FFFF) == Some(ParseCidr(cidr).value.prefix)
  {
    var halves := SplitOnce(cidr, '/').value;
    parts, prefix := Split(halves.0, '.'), halves.1;
    o := ParseOctets(parts).value;
    SplitOnceJoins(cidr, '/');
    JoinSplit(halves.0, '.');
    forall i | 0 <= i < 4 ensures ParseUnsigned(parts[i], 255) == Some(o[i]) {
      ParsedOctets(parts, i);
    }
  }

  lemma Digits256(high: nat, low: nat)
    requires low < 256
    ensures (high * 256 + low) / 256 == high && (high * 256 + low) % 256 == low
  {
  }

  lemma LeadingParts(x: nat)
    ensures x / 0x1_0000 == x / 256 / 256 && x / 0x100_0000 == x / 256 / 256 / 256
  {
  }

  lemma OctetsOf(a: nat, b: nat, c: nat, d: nat)
    requires a < 256 && b < 256 && c < 256 && d < 256
    ensures Octets(a * 0x100_0000 + b * 0x1_0000 + c * 0x100 + d) == [a, b, c, d]
  {
    var ab := a * 256 + b;
    var abc := ab * 256 + c;
    var x := abc * 256 + d;
    assert x == a * 0x100_0000 + b * 0x1_0000 + c * 0x100 + d;
    Digits256(abc, d);
    Digits256(ab, c);
    Digits256(a, b);
    LeadingParts(x);
  }

  /** Octets are written last first. */
  lemma {:induction false} ReversedAt(octets: seq<nat>, i: nat)
    requires i < |octets|
    ensures ReversedDecimals(octets)[|octets| - 1 - i] == Decimal(octets[i])
  {
    if i > 0 {
      ReversedAt(octets[1..], i - 1);
    }
  }

  lemma FourReversed(o: seq<nat>)
    requires |o| == 4
    ensures ReversedDecimals(o) == [Decimal(o[3]), Decimal(o[2]), Decimal(o[1]), Decimal(o[0])]
  {
    ReversedAt(o, 0);
    ReversedAt(o, 1);
    ReversedAt(o, 2);
    ReversedAt(o, 3);
  }

  lemma ReversedTexts(a: nat, b: nat, c: nat)
    ensures ReversedDecimals([a]) == [Decimal(a)]
    ensures ReversedDecimals([a, b]) == [Decimal(b), Decimal(a)]
    ensures ReversedDecimals([a, b, c]) == [Decimal(c), Decimal(b), Decimal(a)]
  {
    ReversedAt([a], 0);
    ReversedAt([a, b], 0);
    ReversedAt([a, b], 1);
    ReversedAt([a, b, c], 0);
    ReversedAt([a, b, c], 1);
    ReversedAt([a, b, c], 2);
  }

  // ----- what a zone covers -----

  const REVERSE_LABELS := ["in-addr", "arpa"]

  /** The labels of the PTR name of an address. */
  function AddressLabels(x: Address): seq<string> { ReversedDecimals(Octets(x)) + REVERSE_LABELS }

  /** The PTR name of `x` lies in `zone`: the zone's labels end the name's labels. */
  predicate Covers(zone: string, x: Address) { EndsWith(AddressLabels(x), Split(zone, '.')) }

  /** The PTR name: the octets from the last to the first, then in-addr.arpa. */
  lemma AddressLabelsSpelled(x: Address)
    ensures AddressLabels(x)
      == [Decimal(x % 256), Decimal(x / 256 % 256), Decimal(x / 0x1_0000 % 256), Decimal(x / 0x100_0000),
          "in-addr", "arpa"]
  {
    var o := Octets(x);
    FourReversed(o);
    WithDomain(x, Decimal(o[3]), Decimal(o[2]), Decimal(o[1]), Decimal(o[0]));
  }

  lemma WithDomain(x: Address, p: string, q: string, r: string, s: string)
    requires ReversedDecimals(Octets(x)) == [p, q, r, s]
    ensures AddressLabels(x) == [p, q, r, s, "in-addr", "arpa"]
  {
  }

  lemma {:induction false} DecimalsHaveNoDot(octets: seq<nat>, i: nat)
    requires i < |octets|
    ensures '.' !in ReversedDecimals(octets)[i]
  {
    DecimalHasNo(octets[0], '.');
    if i < |octets| - 1 {
      DecimalsHaveNoDot(octets[1..], i);
    }
  }

  lemma {:induction false} JoinAppend(a: seq<string>, b: seq<string>)
    requires a != [] && b != []
    ensures Join(a, '.') + "." + Join(b, '.') == Join(a + b, '.')
  {
    if |a| == 1 {
      assert (a + b)[1..] == b;
    } else {
      assert (a + b)[1..] == a[1..] + b;
      JoinAppend(a[1..], b);
    }
  }

  lemma ZoneLabels(block: Cidr, index: nat)
    requires 8 <= block.prefix <= 30
    ensures Split(ZoneName(block, index), '.')
      == ReversedDecimals(Octets(ZoneBase(block, index))[..ZoneOctets(block.prefix)]) + REVERSE_LABELS
  {
    var front := ReversedDecimals(Octets(ZoneBase(block, index))[..ZoneOctets(block.prefix)]);
    forall i | 0 <= i < |front| ensures '.' !in front[i] {
      DecimalsHaveNoDot(Octets(ZoneBase(block, index))[..ZoneOctets(block.prefix)], i);
    }
    assert Join(["arpa"], '.') == "arpa";
    assert REVERSE_LABELS[1..] == ["arpa"];
    assert Join(REVERSE_LABELS, '.') == REVERSE_DOMAIN;
    JoinAppend(front, REVERSE_LABELS);
    SplitJoin(front + REVERSE_LABELS, '.');
  }

  lemma {:induction false} ReversedAppend(a: seq<nat>, b: seq<nat>)
    ensures ReversedDecimals(a + b) == ReversedDecimals(b) + ReversedDecimals(a)
  {
    if a == [] {
      assert a + b == b;
    } else {
      assert (a + b)[1..] == a[1..] + b;
      ReversedAppend(a[1..], b);
    }
  }

  lemma {:induction false} ReversedInjective(a: seq<nat>, b: seq<nat>)
    requires |a| == |b| && ReversedDecimals(a) == ReversedDecimals(b)
    ensures a == b
  {
    if a != [] {
      var ra, rb := ReversedDecimals(a), ReversedDecimals(b);
      assert ra[|a| - 1] == rb[|a| - 1];
      assert ra[..|a| - 1] == ReversedDecimals(a[1..]) && rb[..|a| - 1] == ReversedDecimals(b[1..]);
      ReversedInjective(a[1..], b[1..]);
      DigitValueDecimal(a[0]);
      DigitValueDecimal(b[0]);
    }
  }

  /** In label terms: a zone of `n` octets covers the addresses that share those octets. */
  lemma CoversIffSameOctets(zone: string, base: nat, n: nat, x: Address)
    requires 1 <= n <= 3 && Split(zone, '.') == ReversedDecimals(Octets(base)[..n]) + REVERSE_LABELS
    ensures Covers(zone, x) <==> Octets(x)[..n] == Octets(base)[..n]
  {
    var mine, theirs := Octets(x), Octets(base)[..n];
    assert mine == mine[..n] + mine[n..];
    ReversedAppend(mine[..n], mine[n..]);
    var tail := ReversedDecimals(mine[..n]) + REVERSE_LABELS;
    assert AddressLabels(x) == ReversedDecimals(mine[n..]) + tail;
    assert AddressLabels(x)[|AddressLabels(x)| - |tail|..] == tail;
    if Covers(zone, x) {
      assert tail[..n] == ReversedDecimals(mine[..n]);
      assert Split(zone, '.')[..n] == ReversedDecimals(theirs);
      ReversedInjective(mine[..n], theirs);
    }
  }

  /** Leading octets put together give the leading bits. */
  function Leading(octets: seq<nat>): nat {
    if octets == [] then 0 else Leading(octets[..|octets| - 1]) * 256 + octets[|octets| - 1]
  }

  lemma LeadingOctets(x: nat, n: nat)
    requires 1 <= n <= 3
    ensures Leading(Octets(x)[..n]) == x / Pow2(32 - n * 8)
  {
    Pow2Values();
    var o := Octets(x);
    assert o[..1][..0] == [] && o[..2][..1] == o[..1] && o[..3][..2] == o[..2];
    assert Leading(o[..1]) == o[0];
    assert Leading(o[..2]) == o[0] * 256 + o[1];
    assert Leading(o[..3]) == Leading(o[..2]) * 256 + o[2];
    assert x / 0x100_0000 == x / 0x1_0000 / 256;
    assert x / 0x1_0000 == x / 256 / 256;
  }

  lemma {:induction false} LeadingInjective(a: seq<nat>, b: seq<nat>)
    requires |a| == |b| && Leading(a) == Leading(b)
    requires forall i :: 1 <= i < |a| ==> a[i] < 256 && b[i] < 256
    ensures a == b
  {
    if |a| == 1 {
      assert a[..0] == [] && b[..0] == [];
    } else if |a| > 1 {
      var n := |a| - 1;
      LeadingInjective(a[..n], b[..n]);
      assert a == a[..n] + [a[n]] && b == b[..n] + [b[n]];
    }
  }

  lemma SameOctets(x: nat, y: nat, n: nat)
    requires 1 <= n <= 3
    ensures Octets(x)[..n] == Octets(y)[..n] <==> x / Pow2(32 - n * 8) == y / Pow2(32 - n * 8)
  {
    LeadingOctets(x, n);
    LeadingOctets(y, n);
    if x / Pow2(32 - n * 8) == y / Pow2(32 - n * 8) {
      LeadingInjective(Octets(x)[..n], Octets(y)[..n]);
    }
  }

  // ----- exact cover -----

  lemma ZoneCovers(block: Cidr, index: nat, x: Address)
    requires 8 <= block.prefix <= 30
    ensures Covers(ZoneName(block, index), x)
      <==> x / Stride(block.prefix) == ZoneBase(block, index) / Stride(block.prefix)
  {
    var n := ZoneOctets(block.prefix);
    ZoneLabels(block, index);
    CoversIffSameOctets(ZoneName(block, index), ZoneBase(block, index), n, x);
    SameOctets(x, ZoneBase(block, index), n);
  }

  /** Which addresses share the quotient of a tile's base. */
  lemma TileQuotient(base: nat, stride: nat, x: nat)
    requires stride > 0 && base % stride == 0
    ensures x / stride == base / stride <==> base <= x < base + stride
  {
    var q := base / stride;
    assert x == x / stride * stride + x % stride;
    if base <= x < base + stride {
      UniqueRemainder(x, stride, q, x - base);
    }
  }

  lemma TileAligned(start: nat, i: nat, stride: nat)
    requires stride > 0 && start % stride == 0
    ensures (start + i * stride) % stride == 0
  {
    assert start + i * stride == (start / stride + i) * stride;
    MultipleHasNoRemainder(start / stride + i, stride);
  }

  lemma TileEnd(i: nat, count: nat, stride: nat)
    requires i < count
    ensures i * stride + stride <= count * stride
  {
    assert (i + 1) * stride <= count * stride;
  }

  lemma TileOf(start: nat, count: nat, stride: nat, x: nat) returns (i: nat)
    requires stride > 0 && start <= x < start + count * stride
    ensures i < count && start + i * stride <= x < start + i * stride + stride
  {
    i := (x - start) / stride;
    assert x - start == i * stride + (x - start) % stride;
    if count <= i { Scaled(count, i, stride); }
  }

  lemma Scaled(count: nat, i: nat, stride: nat)
    requires count <= i
    ensures count * stride <= i * stride
  {
    assert (i - count) * stride >= 0;
  }

  lemma TilesDisjoint(start: nat, i: nat, j: nat, stride: nat, x: nat)
    requires start + i * stride <= x < start + i * stride + stride
    requires start + j * stride <= x < start + j * stride + stride
    ensures i == j
  {
    if i < j { TileEnd(i, j, stride); }
    if j < i { TileEnd(j, i, stride); }
  }

  /** Zones of a block up to /24 tile it, inside the address space. */
  lemma ZonesTile(block: Cidr)
    requires 8 <= block.prefix <= 24 && block.Canonical()
    ensures ZoneCount(block.prefix) * Stride(block.prefix) == block.Size()
    ensures block.addr % Stride(block.prefix) == 0
    ensures block.addr + ZoneCount(block.prefix) * Stride(block.prefix) <= 0x1_0000_0000
  {
    var n := ZoneOctets(block.prefix);
    Pow2Sum(n * 8 - block.prefix, 32 - n * 8);
    BlockFits(block);
    MultipleOfPart(block.addr, ZoneCount(block.prefix), Stride(block.prefix));
  }

  /** Tiles of an aligned block stay aligned and below its end, so a sum below 2^32 is exact. */
  lemma TileInside(addr: nat, index: nat, count: nat, stride: nat)
    requires stride > 0 && index < count && addr % stride == 0 && addr + count * stride <= 0x1_0000_0000
    ensures (addr + index * stride) % 0x1_0000_0000 == addr + index * stride
    ensures (addr + index * stride) % stride == 0
    ensures addr <= addr + index * stride && addr + index * stride + stride <= addr + count * stride
  {
    TileEnd(index, count, stride);
    TileAligned(addr, index, stride);
    assert 0 <= index * stride && addr + index * stride < 0x1_0000_0000;
  }

  /** `wrapping_add` never wraps; for longer prefixes there is one zone, at the block's address. */
  lemma ZoneBaseDoesNotWrap(block: Cidr, index: nat)
    requires 8 <= block.prefix <= 30 && block.Canonical() && index < ZoneCount(block.prefix)
    ensures ZoneBase(block, index) == block.addr + index * Stride(block.prefix) < 0x1_0000_0000
    ensures block.prefix > 24 ==> index == 0 && ZoneBase(block, index) == block.addr
    ensures block.prefix <= 24 ==>
      && block.addr <= ZoneBase(block, index) && ZoneBase(block, index) % Stride(block.prefix) == 0
      && ZoneBase(block, index) + Stride(block.prefix) <= block.addr + block.Size() <= 0x1_0000_0000
  {
    if block.prefix <= 24 {
      ZonesTile(block);
      TileInside(block.addr, index, ZoneCount(block.prefix), Stride(block.prefix));
    }
  }

  /** Zone `index` of a block up to /24 covers exactly its own stride of addresses. */
  lemma ZoneRange(block: Cidr, index: nat, x: Address)
    requires 8 <= block.prefix <= 24 && block.Canonical() && index < ZoneCount(block.prefix)
    ensures Covers(ZoneName(block, index), x)
      <==> ZoneBase(block, index) <= x < ZoneBase(block, index) + Stride(block.prefix)
  {
    ZoneBaseDoesNotWrap(block, index);
    ZoneCovers(block, index, x);
    TileQuotient(ZoneBase(block, index), Stride(block.prefix), x);
  }

  ghost predicate CoveredBy(block: Cidr, index: nat, x: Address)
    requires 8 <= block.prefix <= 30
  {
    index < ZoneCount(block.prefix) && Covers(ZoneName(block, index), x)
  }

  lemma ContainedIsCovered(block: Cidr, x: Address) returns (i: nat)
    requires 8 <= block.prefix <= 24 && block.Canonical() && block.Contains(x)
    ensures CoveredBy(block, i, x)
  {
    ZonesTile(block);
    i := TileOf(block.addr, ZoneCount(block.prefix), Stride(block.prefix), x);
    ZoneBaseDoesNotWrap(block, i);
    ZoneRange(block, i, x);
  }

  lemma CoveredIsContained(block: Cidr, i: nat, x: Address)
    requires 8 <= block.prefix <= 24 && block.Canonical() && CoveredBy(block, i, x)
    ensures block.Contains(x)
  {
    ZoneBaseDoesNotWrap(block, i);
    ZoneRange(block, i, x);
  }

  lemma CoveredOnce(block: Cidr, i: nat, j: nat, x: Address)
    requires 8 <= block.prefix <= 24 && block.Canonical() && CoveredBy(block, i, x) && CoveredBy(block, j, x)
    ensures i == j
  {
    ZoneRange(block, i, x);
    ZoneRange(block, j, x);
    ZoneBaseDoesNotWrap(block, i);
    ZoneBaseDoesNotWrap(block, j);
    TilesDisjoint(block.addr, i, j, Stride(block.prefix), x);
  }

  /** For prefixes up to /24 the zones cover the block and nothing else, each address once. */
  lemma ZonesPartitionBlock(block: Cidr, x: Address)
    requires 8 <= block.prefix <= 24 && block.Canonical()
    ensures block.Contains(x) <==> exists i :: CoveredBy(block, i, x)
    ensures forall i, j :: CoveredBy(block, i, x) && CoveredBy(block, j, x) ==> i == j
  {
    if block.Contains(x) {
      var i := ContainedIsCovered(block, x);
    }
    forall i | CoveredBy(block, i, x) ensures block.Contains(x) {
      CoveredIsContained(block, i, x);
    }
    forall i, j | CoveredBy(block, i, x) && CoveredBy(block, j, x) ensures i == j {
      CoveredOnce(block, i, j, x);
    }
  }

  lemma InsideEnclosing(a: nat, size: nat, k: nat)
    requires size > 0 && size * k == 256 && a % size == 0
    ensures a + size <= a / 256 * 256 + 256
  {
    var end := (a / 256 + 1) * k;
    assert end * size == (a / 256 + 1) * 256;
    MultipleHasNoRemainder(end, size);
    MultipleBelow(size, a, end * size);
  }

  lemma EnclosingBlock(block: Cidr, x: Address)
    requires 24 < block.prefix <= 30 && block.Canonical()
    ensures x / 256 == block.addr / 256 <==> Cidr(block.addr, 24).Contains(x)
    ensures block.Contains(x) ==> x / 256 == block.addr / 256
  {
    Pow2Values();
    Pow2Sum(32 - block.prefix, block.prefix - 24);
    InsideEnclosing(block.addr, block.Size(), Pow2(block.prefix - 24));
    assert Cidr(block.addr, 24).Network() == block.addr / 256 * 256;
  }

  /** For longer prefixes the single zone covers exactly the enclosing /24. */
  lemma LongPrefixCoversEnclosing24(block: Cidr, x: Address)
    requires 24 < block.prefix <= 30 && block.Canonical()
    ensures ZoneCount(block.prefix) == 1
    ensures Covers(ZoneName(block, 0), x) <==> Cidr(block.addr, 24).Contains(x)
    ensures block.Contains(x) ==> Covers(ZoneName(block, 0), x)
  {
    Pow2Values();
    assert Stride(block.prefix) == 256 && ZoneBase(block, 0) == block.addr;
    ZoneCovers(block, 0, x);
    EnclosingBlock(block, x);
  }

  ghost predicate OnlyCoveredBy(zones: seq<string>, i: nat, x: Address) {
    && i < |zones| && Covers(zones[i], x)
    && forall j :: 0 <= j < |zones| && Covers(zones[j], x) ==> j == i
  }

  /** The whole result, in the text `reverse_zones_for_cidr` returns: the zones are pairwise
      distinct. */
  lemma ReverseZonesDistinct(cidr: string, i: nat, j: nat)
    requires ReverseZonesForCidr(cidr).Ok? && i < j < |ReverseZonesForCidr(cidr).value|
    ensures ReverseZonesForCidr(cidr).value[i] != ReverseZonesForCidr(cidr).value[j]
  {
    var block := ParseCidr(cidr).value;
    var base := ZoneBase(block, i);
    ZoneBaseDoesNotWrap(block, i);
    ZoneRange(block, i, base);
    ZonesPartitionBlock(block, base);
    assert CoveredBy(block, i, base) && !CoveredBy(block, j, base);
  }

  /** Every address of the CIDR has its PTR name under exactly one of the returned zones. */
  lemma ReverseZonesCoverOnce(cidr: string, x: Address)
    requires ReverseZonesForCidr(cidr).Ok? && ParseCidr(cidr).value.Contains(x)
    ensures exists i :: OnlyCoveredBy(ReverseZonesForCidr(cidr).value, i, x)
  {
    var block, zones := ParseCidr(cidr).value, ReverseZonesForCidr(cidr).value;
    if block.prefix <= 24 {
      ZonesPartitionBlock(block, x);
      var i :| CoveredBy(block, i, x);
      forall j | 0 <= j < |zones| && Covers(zones[j], x) ensures j == i {
        assert CoveredBy(block, j, x);
      }
      assert OnlyCoveredBy(zones, i, x);
    } else {
      LongPrefixCoversEnclosing24(block, x);
      assert OnlyCoveredBy(zones, 0, x);
    }
  }

  lemma SplitsEvenly(a: nat, b: nat, c: nat)
    requires a < 256 && b < 256 && c < 256
    ensures (a * 0x100_0000 + b * 0x1_0000 + c * 0x100) % 0x100 == 0
    ensures c == 0 ==> (a * 0x100_0000 + b * 0x1_0000) % 0x1_0000 == 0
    ensures b == 0 && c == 0 ==> a * 0x100_0000 % 0x100_0000 == 0
  {
    assert a * 0x100_0000 + b * 0x1_0000 + c * 0x100 == (a * 0x1_0000 + b * 0x100 + c) * 0x100;
    assert a * 0x100_0000 + b * 0x1_0000 == (a * 0x100 + b) * 0x1_0000;
  }

  lemma OneZone(a: nat, b: nat, c: nat, prefix: nat)
    requires a < 256 && b < 256 && c < 256 && prefix in {8, 16, 24}
    requires (prefix < 16 ==> b == 0) && (prefix < 24 ==> c == 0)
    ensures
      var block := Cidr(a * 0x100_0000 + b * 0x1_0000 + c * 0x100, prefix);
      && block.Canonical() && ZoneCount(prefix) == 1
      && ZoneName(block, 0) == Join(ReversedDecimals([a, b, c][..prefix / 8]), '.') + "." + REVERSE_DOMAIN
  {
    var block := Cidr(a * 0x100_0000 + b * 0x1_0000 + c * 0x100, prefix);
    OctetBlock(a, b, c, prefix);
    FirstZone(block);
    OctetsOf(a, b, c, 0);
    assert [a, b, c, 0][..prefix / 8] == [a, b, c][..prefix / 8];
  }

  lemma OctetBlock(a: nat, b: nat, c: nat, prefix: nat)
    requires a < 256 && b < 256 && c < 256 && prefix in {8, 16, 24}
    requires (prefix < 16 ==> b == 0) && (prefix < 24 ==> c == 0)
    ensures Cidr(a * 0x100_0000 + b * 0x1_0000 + c * 0x100, prefix).Canonical()
    ensures ZoneCount(prefix) == 1 && ZoneOctets(prefix) == prefix / 8
  {
    Pow2Values();
    SplitsEvenly(a, b, c);
  }

  lemma FirstZone(block: Cidr)
    requires 8 <= block.prefix <= 30
    ensures ZoneBase(block, 0) == block.addr
  {
  }

  lemma ZonesOfBlock(cidr: string, a: nat, b: nat, c: nat, prefix: nat, labels: seq<nat>)
    requires a < 256 && b < 256 && c < 256 && prefix in {8, 16, 24}
    requires (prefix < 16 ==> b == 0) && (prefix < 24 ==> c == 0) && labels == [a, b, c][..prefix / 8]
    requires ParseCidr(cidr) == Ok(Cidr(a * 0x100_0000 + b * 0x1_0000 + c * 0x100, prefix))
    ensures ReverseZonesForCidr(cidr) == Ok([Join(ReversedDecimals(labels), '.') + "." + REVERSE_DOMAIN])
  {
    OneZone(a, b, c, prefix);
    OneZoneListed(cidr, Cidr(a * 0x100_0000 + b * 0x1_0000 + c * 0x100, prefix));
  }

  lemma OneZoneListed(cidr: string, block: Cidr)
    requires 8 <= block.prefix <= 30 && ParseCidr(cidr) == Ok(block) && ZoneCount(block.prefix) == 1
    ensures ReverseZonesForCidr(cidr) == Ok([ZoneName(block, 0)])
  {
    var zones := ReverseZonesForCidr(cidr).value;
    assert |zones| == 1 && zones[0] == ZoneName(block, 0);
    assert zones == [ZoneName(block, 0)];
  }

  lemma JoinedTexts(a: string, b: string, c: string)
    ensures Join([a], '.') == a && Join([b, a], '.') == b + "." + a && Join([c, b, a], '.') == c + "." + b + "." + a
  {
    assert [b, a][1..] == [a] && [c, b, a][1..] == [b, a];
  }

  lemma DomainText(head: string)
    ensures head + "." + REVERSE_DOMAIN == head + ".in-addr.arpa"
  {
    assert "." + REVERSE_DOMAIN == ".in-addr.arpa";
  }

  /** The zone of a /8, /16 or /24 as a text: its octets from the last to the first. */
  lemma OctetZones(cidr: string, a: nat, b: nat, c: nat)
    requires a < 256 && b < 256 && c < 256
    ensures ParseCidr(cidr) == Ok(Cidr(a * 0x100_0000, 8)) ==>
      ReverseZonesForCidr(cidr) == Ok([Decimal(a) + ".in-addr.arpa"])
    ensures ParseCidr(cidr) == Ok(Cidr(a * 0x100_0000 + b * 0x1_0000, 16)) ==>
      ReverseZonesForCidr(cidr) == Ok([Decimal(b) + "." + Decimal(a) + ".in-addr.arpa"])
    ensures ParseCidr(cidr) == Ok(Cidr(a * 0x100_0000 + b * 0x1_0000 + c * 0x100, 24)) ==>
      ReverseZonesForCidr(cidr) == Ok([Decimal(c) + "." + Decimal(b) + "." + Decimal(a) + ".in-addr.arpa"])
  {
    if ParseCidr(cidr) == Ok(Cidr(a * 0x100_0000, 8)) {
      ZonesOfBlock(cidr, a, 0, 0, 8, [a]);
    }
    if ParseCidr(cidr) == Ok(Cidr(a * 0x100_0000 + b * 0x1_0000, 16)) {
      ZonesOfBlock(cidr, a, b, 0, 16, [a, b]);
    }
    if ParseCidr(cidr) == Ok(Cidr(a * 0x100_0000 + b * 0x1_0000 + c * 0x100, 24)) {
      ZonesOfBlock(cidr, a, b, c, 24, [a, b, c]);
    }
    OctetTexts(a, b, c);
  }

  lemma OctetTexts(a: nat, b: nat, c: nat)
    ensures Join(ReversedDecimals([a]), '.') + "." + REVERSE_DOMAIN == Decimal(a) + ".in-addr.arpa"
    ensures Join(ReversedDecimals([a, b]), '.') + "." + REVERSE_DOMAIN
      == Decimal(b) + "." + Decimal(a) + ".in-addr.arpa"
    ensures Join(ReversedDecimals([a, b, c]), '.') + "." + REVERSE_DOMAIN
      == Decimal(c) + "." + Decimal(b) + "." + Decimal(a) + ".in-addr.arpa"
  {
    ReversedTexts(a, b, c);
    JoinedTexts(Decimal(a), Decimal(b), Decimal(c));
    DomainText(Decimal(a));
    DomainText(Decimal(b) + "." + Decimal(a));
    DomainText(Decimal(c) + "." + Decimal(b) + "." + Decimal(a));
  }
}
