/**
 The two hand-written Base64 encoders: the padded standard form (section 4 of RFC 4648) and
 the unpadded URL form (section 5 of RFC 4648).
 */
module Base64 {
  import opened Wrappers

  datatype Form = Standard | Url

  // ----- alphabets -----

  /** The alphabets of the RFC, by ranges. */
  function Letter(form: Form, i: int): char
    requires 0 <= i < 64
  {
    if i < 26 then ('A' as int + i) as char
    else if i < 52 then ('a' as int + i - 26) as char
    else if i < 62 then ('0' as int + i - 52) as char
    else if i == 62 then (if form.Standard? then '+' else '-')
    else (if form.Standard? then '/' else '_')
  }

  function Index(form: Form, c: char): (r: Option<int>)
    ensures r.Some? ==> 0 <= r.value < 64
    ensures forall i :: 0 <= i < 64 ==> (Letter(form, i) == c <==> r == Some(i))
  {
    if 'A' <= c <= 'Z' then Some(c as int - 'A' as int)
    else if 'a' <= c <= 'z' then Some(c as int - 'a' as int + 26)
    else if '0' <= c <= '9' then Some(c as int - '0' as int + 52)
    else if c == (if form.Standard? then '+' else '-') then Some(62)
    else if c == (if form.Standard? then '/' else '_') then Some(63)
    else None
  }

  lemma SixBits(v: bv6, i: int)
    requires 0 <= i < 64
    ensures 0 <= v as int < 64 && (v as int) as bv6 == v && (i as bv6) as int == i
  {
    SixBitsUp(v);
    SixBitsDown(i);
  }

  lemma SixBitsUp(v: bv6)
    ensures 0 <= v as int < 64 && (v as int) as bv6 == v
  {
  }

  lemma SixBitsDown(i: int)
    requires 0 <= i < 64
    ensures (i as bv6) as int == i
  {
  }

  function Symbol(form: Form, v: bv6): char { Letter(form, v as int) }

  function Value(form: Form, c: char): Option<bv6> {
    var i := Index(form, c);
    if i.Some? then Some(i.value as bv6) else None
  }

  lemma SymbolValue(form: Form, c: char, v: bv6)
    ensures Value(form, c) == Some(v) <==> Symbol(form, v) == c
  {
    SixBits(v, if Index(form, c).Some? then Index(form, c).value else 0);
  }

  ghost predicate IsTable(form: Form, table: string) {
    |table| == 64 && forall i :: 0 <= i < 64 ==> table[i] == Letter(form, i)
  }

  /** The alphabets, letter by letter (tables 1 and 2 of RFC 4648). */
  lemma Alphabets(form: Form, i: nat)
    ensures i < 26 ==> Letter(form, i) == "ABCDEFGHIJKLMNOPQRSTUVWXYZ"[i]
    ensures i < 26 ==> Letter(form, 26 + i) == "abcdefghijklmnopqrstuvwxyz"[i]
    ensures i < 10 ==> Letter(form, 52 + i) == "0123456789"[i]
    ensures i < 2 ==> Letter(form, 62 + i) == (if form.Standard? then "+/" else "-_")[i]
  {
  }

  method Tables() returns (table: string, alphabet: string)
    ensures IsTable(Standard, table) && IsTable(Url, alphabet)
  {
    var upper, lower := "ABCDEFGHIJKLMNOPQRSTUVWXYZ", "abcdefghijklmnopqrstuvwxyz";
    table, alphabet := upper + lower + "0123456789" + "+/", upper + lower + "0123456789" + "-_";
    forall i | 0 <= i < 64 ensures table[i] == Letter(Standard, i) && alphabet[i] == Letter(Url, i) {
      var k := if i < 26 then i else if i < 52 then i - 26 else if i < 62 then i - 52 else i - 62;
      Alphabets(Standard, k);
      Alphabets(Url, k);
    }
  }

  // ----- bits -----

  function Sextet0(b0: bv8): bv6 { (b0 >> 2) as bv6 }
  function Sextet1(b0: bv8, b1: bv8): bv6 { (((b0 & 3) << 4) | (b1 >> 4)) as bv6 }
  function Sextet2(b1: bv8, b2: bv8): bv6 { (((b1 & 15) << 2) | (b2 >> 6)) as bv6 }
  function Sextet3(b2: bv8): bv6 { (b2 & 63) as bv6 }

  function Byte0(v0: bv6, v1: bv6): bv8 { ((v0 as bv8) << 2) | ((v1 as bv8) >> 4) }
  function Byte1(v1: bv6, v2: bv6): bv8 { ((v1 as bv8) << 4) | ((v2 as bv8) >> 2) }
  function Byte2(v2: bv6, v3: bv6): bv8 { ((v2 as bv8) << 6) | (v3 as bv8) }

  /** Four sextets as three bytes and back. */
  lemma SextetsBack(v0: bv6, v1: bv6, v2: bv6, v3: bv6)
    ensures Sextet0(Byte0(v0, v1)) == v0 && Sextet1(Byte0(v0, v1), Byte1(v1, v2)) == v1
    ensures Sextet2(Byte1(v1, v2), Byte2(v2, v3)) == v2 && Sextet3(Byte2(v2, v3)) == v3
    ensures v1 & 15 == 0 ==> Byte1(v1, 0) == 0
    ensures v2 & 3 == 0 ==> Byte2(v2, 0) == 0
  {
  }

  /** Three bytes as four sextets and back. */
  lemma BytesBack(b0: bv8, b1: bv8, b2: bv8)
    ensures Byte0(Sextet0(b0), Sextet1(b0, b1)) == b0 && Byte1(Sextet1(b0, b1), Sextet2(b1, b2)) == b1
    ensures Byte2(Sextet2(b1, b2), Sextet3(b2)) == b2
    ensures Sextet1(b0, 0) & 15 == 0 && Sextet2(b1, 0) & 3 == 0
  {
  }

  /** The three bytes as one 24-bit number, cut into sextets by shifting and masking. */
  lemma TripleSextets(b0: bv8, b1: bv8, b2: bv8)
    ensures
      var triple := ((b0 as bv32) << 16) | ((b1 as bv32) << 8) | (b2 as bv32);
      && Low6(triple >> 18) == Sextet0(b0) && Low6(triple >> 12) == Sextet1(b0, b1)
      && Low6(triple >> 6) == Sextet2(b1, b2) && Low6(triple) == Sextet3(b2)
  {
  }

  // ----- what the encoders compute -----

  function Take(s: nat, n: nat): nat { if s < n then s else n }

  function ByteAt(bytes: seq<bv8>, i: nat): bv8 { if i < |bytes| then bytes[i] else 0 }

  /** One to three bytes as two to four sextets, missing bits zero. */
  function Sextets(g: seq<bv8>): (v: seq<bv6>)
    requires 1 <= |g| <= 3
    ensures |v| == |g| + 1
  {
    [Sextet0(g[0]), Sextet1(g[0], ByteAt(g, 1))]
    + (if |g| > 1 then [Sextet2(g[1], ByteAt(g, 2))] else [])
    + (if |g| > 2 then [Sextet3(g[2])] else [])
  }

  function Symbols(form: Form, v: seq<bv6>): (s: string)
    ensures |s| == |v|
  {
    seq(|v|, i requires 0 <= i < |v| => Symbol(form, v[i]))
  }

  function Padded(form: Form, s: string): string {
    if form.Url? || |s| >= 4 then s else if |s| == 3 then s + "=" else s + "=="
  }

  function Group(form: Form, g: seq<bv8>): string
    requires 1 <= |g| <= 3
  {
    Padded(form, Symbols(form, Sextets(g)))
  }

  /** Three bytes at a time, the last group maybe shorter, each through `code`. */
  function InGroups(code: seq<bv8> -> string, bytes: seq<bv8>): string
    decreases |bytes|
  {
    if bytes == [] then ""
    else code(bytes[..Take(|bytes|, 3)]) + InGroups(code, bytes[Take(|bytes|, 3)..])
  }

  function GroupCode(form: Form): seq<bv8> -> string {
    (g: seq<bv8>) => if 1 <= |g| <= 3 then Group(form, g) else ""
  }

  function Encoded(form: Form, bytes: seq<bv8>): string { InGroups(GroupCode(form), bytes) }

  lemma OneGroup(form: Form, g: seq<bv8>)
    requires 1 <= |g| <= 3
    ensures Encoded(form, g) == Group(form, g)
  {
    assert g[..|g|] == g && g[|g|..] == [] && InGroups(GroupCode(form), []) == "";
    assert Group(form, g) + "" == Group(form, g);
  }

  lemma TwoGroups(form: Form, g: seq<bv8>, h: seq<bv8>)
    requires |g| == 3 && 1 <= |h| <= 3
    ensures Encoded(form, g + h) == Group(form, g) + Group(form, h)
  {
    assert (g + h)[..3] == g && (g + h)[3..] == h;
    OneGroup(form, h);
  }

  lemma GroupVectors()
    ensures Group(Standard, [0x66]) == "Zg==" && Group(Standard, [0x66, 0x6f]) == "Zm8="
    ensures Group(Standard, [0x66, 0x6f, 0x6f]) == "Zm9v" && Group(Standard, [0x62]) == "Yg=="
    ensures Group(Standard, [0x62, 0x61]) == "YmE=" && Group(Standard, [0x62, 0x61, 0x72]) == "YmFy"
  {
  }

  /** The test vectors of section 10 of RFC 4648. */
  lemma Vectors()
    ensures Encoded(Standard, []) == "" && Encoded(Standard, [0x66]) == "Zg=="
    ensures Encoded(Standard, [0x66, 0x6f]) == "Zm8=" && Encoded(Standard, [0x66, 0x6f, 0x6f]) == "Zm9v"
    ensures Encoded(Standard, [0x66, 0x6f, 0x6f] + [0x62]) == "Zm9v" + "Yg=="
    ensures Encoded(Standard, [0x66, 0x6f, 0x6f] + [0x62, 0x61]) == "Zm9v" + "YmE="
    ensures Encoded(Standard, [0x66, 0x6f, 0x6f] + [0x62, 0x61, 0x72]) == "Zm9v" + "YmFy"
  {
    GroupVectors();
    OneGroup(Standard, [0x66]);
    OneGroup(Standard, [0x66, 0x6f]);
    OneGroup(Standard, [0x66, 0x6f, 0x6f]);
    TwoGroups(Standard, [0x66, 0x6f, 0x6f], [0x62]);
    TwoGroups(Standard, [0x66, 0x6f, 0x6f], [0x62, 0x61]);
    TwoGroups(Standard, [0x66, 0x6f, 0x6f], [0x62, 0x61, 0x72]);
  }

  // ----- reference decoder -----

  function StripPadding(form: Form, g: string): string {
    if form.Url? || |g| != 4 || g[3] != '=' then g
    else if g[2] != '=' then g[..3]
    else g[..2]
  }

  predicate AllSymbols(form: Form, s: string) { forall i :: 0 <= i < |s| ==> Value(form, s[i]).Some? }

  function Values(form: Form, s: string): (v: seq<bv6>)
    requires AllSymbols(form, s)
    ensures |v| == |s|
  {
    seq(|s|, i requires 0 <= i < |s| => Value(form, s[i]).value)
  }

  /** Unused bits must be zero. */
  function Packed(v: seq<bv6>): (r: Option<seq<bv8>>)
    ensures r.Some? ==> 1 <= |r.value| <= 3 && |v| == |r.value| + 1
  {
    match |v|
    case 2 => if v[1] & 15 == 0 then Some([Byte0(v[0], v[1])]) else None
    case 3 => if v[2] & 3 == 0 then Some([Byte0(v[0], v[1]), Byte1(v[1], v[2])]) else None
    case 4 => Some([Byte0(v[0], v[1]), Byte1(v[1], v[2]), Byte2(v[2], v[3])])
    case _ => None
  }

  /** Strict: a standard group has exactly four characters. */
  function DecodeGroup(form: Form, g: string): (r: Option<seq<bv8>>)
    ensures r.Some? ==> 1 <= |r.value| <= 3
  {
    var data := StripPadding(form, g);
    if (form.Standard? && |g| != 4) || !AllSymbols(form, data) then None else Packed(Values(form, data))
  }

  /** Four characters at a time; a group of fewer than three bytes must be the last. */
  function FromGroups(decode: string -> Option<seq<bv8>>, s: string): Option<seq<bv8>>
    decreases |s|
  {
    if s == "" then Some([])
    else
      var head := decode(s[..Take(|s|, 4)]);
      var rest := s[Take(|s|, 4)..];
      if head.None? then None
      else if |head.value| < 3 then (if rest == "" then head else None)
      else
        var tail := FromGroups(decode, rest);
        if tail.None? then None else Some(head.value + tail.value)
  }

  function GroupDecode(form: Form): string -> Option<seq<bv8>> { (s: string) => DecodeGroup(form, s) }

  function Decoded(form: Form, s: string): Option<seq<bv8>> { FromGroups(GroupDecode(form), s) }

  lemma SextetsPacked(g: seq<bv8>)
    requires 1 <= |g| <= 3
    ensures Packed(Sextets(g)) == Some(g)
  {
    BytesBack(g[0], ByteAt(g, 1), ByteAt(g, 2));
    var r := Packed(Sextets(g));
    assert r.Some? && r.value == g;
  }

  lemma PackedSextets(v: seq<bv6>)
    requires Packed(v).Some?
    ensures Sextets(Packed(v).value) == v
  {
    SextetsBack(v[0], v[1], if |v| > 2 then v[2] else 0, if |v| > 3 then v[3] else 0);
    var g := Packed(v).value;
    assert Sextets(g) == v;
  }

  lemma SymbolsValues(form: Form, v: seq<bv6>)
    ensures AllSymbols(form, Symbols(form, v)) && Values(form, Symbols(form, v)) == v
    ensures '=' !in Symbols(form, v)
  {
    var s := Symbols(form, v);
    forall i | 0 <= i < |s| ensures Value(form, s[i]) == Some(v[i]) && s[i] != '=' {
      SymbolValue(form, s[i], v[i]);
      SixBits(v[i], 0);
    }
  }

  lemma ValuesSymbols(form: Form, s: string)
    requires AllSymbols(form, s)
    ensures Symbols(form, Values(form, s)) == s
  {
    forall i | 0 <= i < |s| ensures Symbol(form, Values(form, s)[i]) == s[i] {
      SymbolValue(form, s[i], Values(form, s)[i]);
    }
  }

  lemma GroupDecodes(form: Form, g: seq<bv8>)
    requires 1 <= |g| <= 3
    ensures DecodeGroup(form, Group(form, g)) == Some(g)
    ensures |Group(form, g)| == if form.Standard? then 4 else |g| + 1
  {
    var s := Symbols(form, Sextets(g));
    SextetsPacked(g);
    SymbolsValues(form, Sextets(g));
    assert StripPadding(form, Padded(form, s)) == s;
  }

  lemma GroupEncodes(form: Form, s: string)
    requires |s| <= 4 && DecodeGroup(form, s).Some?
    ensures Group(form, DecodeGroup(form, s).value) == s
  {
    var data := StripPadding(form, s);
    var v := Values(form, data);
    PackedSextets(v);
    ValuesSymbols(form, data);
    assert Padded(form, data) == s;
  }

  /** On one group, `decode` accepts exactly what `code` produces. */
  ghost predicate Inverse(code: seq<bv8> -> string, decode: string -> Option<seq<bv8>>) {
    && (forall g :: 1 <= |g| <= 3 ==> decode(code(g)) == Some(g) && 1 <= |code(g)| <= 4)
    && (forall g :: |g| == 3 ==> |code(g)| == 4)
    && (forall s :: |s| <= 4 && decode(s).Some? ==> 1 <= |decode(s).value| <= 3 && code(decode(s).value) == s)
  }

  lemma GroupsInverse(form: Form)
    ensures Inverse(GroupCode(form), GroupDecode(form))
  {
    var code, decode := GroupCode(form), GroupDecode(form);
    forall g | 1 <= |g| <= 3
      ensures decode(code(g)) == Some(g) && 1 <= |code(g)| <= 4 && (|g| == 3 ==> |code(g)| == 4)
    {
      GroupDecodes(form, g);
    }
    forall s: string | |s| <= 4 && decode(s).Some? ensures 1 <= |decode(s).value| <= 3 && code(decode(s).value) == s {
      GroupEncodes(form, s);
    }
  }

  lemma GroupCut(g: string, rest: string)
    requires 1 <= |g| <= 4 && (|g| == 4 || rest == "")
    ensures
      var s := g + rest;
      s != "" && s[..Take(|s|, 4)] == g && s[Take(|s|, 4)..] == rest
  {
  }

  lemma {:induction false} GroupsDecode(code: seq<bv8> -> string, decode: string -> Option<seq<bv8>>, bytes: seq<bv8>)
    requires Inverse(code, decode)
    ensures FromGroups(decode, InGroups(code, bytes)) == Some(bytes)
    decreases |bytes|
  {
    if bytes != [] {
      var n := Take(|bytes|, 3);
      var g, rest := code(bytes[..n]), InGroups(code, bytes[n..]);
      GroupsDecode(code, decode, bytes[n..]);
      assert n < 3 ==> bytes[n..] == [] && bytes[..n] == bytes;
      GroupCut(g, rest);
      assert bytes[..n] + bytes[n..] == bytes;
    }
  }

  lemma {:induction false} GroupsEncode(code: seq<bv8> -> string, decode: string -> Option<seq<bv8>>, s: string)
    requires Inverse(code, decode) && FromGroups(decode, s).Some?
    ensures InGroups(code, FromGroups(decode, s).value) == s
    decreases |s|
  {
    if s != "" {
      var n := Take(|s|, 4);
      var head, bytes := decode(s[..n]).value, FromGroups(decode, s).value;
      assert s == s[..n] + s[n..];
      if |head| == 3 {
        GroupsEncode(code, decode, s[n..]);
        assert bytes[..3] == head && bytes[3..] == FromGroups(decode, s[n..]).value;
      } else {
        assert bytes[..Take(|bytes|, 3)] == bytes && bytes[Take(|bytes|, 3)..] == [];
      }
    }
  }

  /** The reference decoder accepts exactly the encodings and inverts them: so encoding is
      injective and decoding has one preimage. */
  lemma DecodedIffEncoded(form: Form, s: string, bytes: seq<bv8>)
    ensures Decoded(form, s) == Some(bytes) <==> s == Encoded(form, bytes)
  {
    GroupsInverse(form);
    GroupsDecode(GroupCode(form), GroupDecode(form), bytes);
    if Decoded(form, s) == Some(bytes) {
      GroupsEncode(GroupCode(form), GroupDecode(form), s);
    }
  }

  lemma {:induction false} GroupsLength(code: seq<bv8> -> string, padded: bool, bytes: seq<bv8>)
    requires forall g :: 1 <= |g| <= 3 ==> |code(g)| == if padded then 4 else |g| + 1
    ensures |InGroups(code, bytes)| == if padded then 4 * ((|bytes| + 2) / 3) else (4 * |bytes| + 2) / 3
    decreases |bytes|
  {
    if bytes != [] {
      GroupsLength(code, padded, bytes[Take(|bytes|, 3)..]);
    }
  }

  /** 4 * ceil(n / 3) characters, or ceil(4n / 3) without padding. */
  lemma EncodedLength(bytes: seq<bv8>)
    ensures |Encoded(Standard, bytes)| == 4 * ((|bytes| + 2) / 3)
    ensures |Encoded(Url, bytes)| == (4 * |bytes| + 2) / 3
  {
    forall form: Form, g: seq<bv8> | 1 <= |g| <= 3
      ensures |GroupCode(form)(g)| == if form.Standard? then 4 else |g| + 1
    {
      GroupDecodes(form, g);
    }
    GroupsLength(GroupCode(Standard), true, bytes);
    GroupsLength(GroupCode(Url), false, bytes);
  }

  // ----- agreement of the two forms -----

  function UrlChar(c: char): char { if c == '+' then '-' else if c == '/' then '_' else c }

  function UrlChars(s: string): string { seq(|s|, i requires 0 <= i < |s| => UrlChar(s[i])) }

  function TrimPadding(s: string): string
    decreases |s|
  {
    if s != "" && s[|s| - 1] == '=' then TrimPadding(s[..|s| - 1]) else s
  }

  lemma {:induction false} TrimPaddingAfter(head: string, tail: string)
    requires tail == "" ==> head == "" || head[|head| - 1] != '='
    requires tail != "" ==> TrimPadding(tail) != ""
    ensures TrimPadding(head + tail) == head + TrimPadding(tail)
    decreases |tail|
  {
    if tail == "" {
      assert head + tail == head;
    } else if tail[|tail| - 1] == '=' {
      var s := head + tail;
      assert s[..|s| - 1] == head + tail[..|tail| - 1];
      TrimPaddingAfter(head, tail[..|tail| - 1]);
    }
  }

  lemma GroupsAgree(g: seq<bv8>)
    requires 1 <= |g| <= 3
    ensures UrlChars(TrimPadding(Group(Standard, g))) == Group(Url, g)
    ensures TrimPadding(Group(Standard, g)) != ""
    ensures |g| == 3 ==> |Group(Standard, g)| == 4 && Group(Standard, g)[3] != '='
  {
    var s := Symbols(Standard, Sextets(g));
    SymbolsValues(Standard, Sextets(g));
    forall i | 0 <= i < |s| ensures UrlChar(s[i]) == Symbol(Url, Sextets(g)[i]) {
      SixBits(Sextets(g)[i], 0);
    }
    assert UrlChars(s) == Symbols(Url, Sextets(g));
    assert TrimPadding(s) == s;
    if |g| == 1 {
      assert (s + "==")[..3] == s + "=" && (s + "=")[..2] == s;
      assert TrimPadding(s + "==") == TrimPadding(s + "=") == s;
    } else if |g| == 2 {
      assert (s + "=")[..3] == s;
    }
  }

  lemma UrlCharsConcat(s: string, t: string)
    ensures UrlChars(s + t) == UrlChars(s) + UrlChars(t)
  {
  }

  ghost predicate Agree(a: seq<bv8> -> string, b: seq<bv8> -> string) {
    && (forall g :: 1 <= |g| <= 3 ==> UrlChars(TrimPadding(a(g))) == b(g) && TrimPadding(a(g)) != "")
    && (forall g :: |g| == 3 ==> a(g) != "" && a(g)[|a(g)| - 1] != '=')
  }

  lemma {:induction false} GroupedAgree(a: seq<bv8> -> string, b: seq<bv8> -> string, bytes: seq<bv8>)
    requires Agree(a, b)
    ensures UrlChars(TrimPadding(InGroups(a, bytes))) == InGroups(b, bytes)
    ensures bytes != [] ==> TrimPadding(InGroups(a, bytes)) != ""
    decreases |bytes|
  {
    if bytes != [] {
      var n := Take(|bytes|, 3);
      var g, rest := a(bytes[..n]), InGroups(a, bytes[n..]);
      GroupedAgree(a, b, bytes[n..]);
      if rest == "" {
        assert g + rest == g && b(bytes[..n]) + InGroups(b, bytes[n..]) == b(bytes[..n]);
      } else {
        assert n == 3 && |bytes[..n]| == 3;
        TrimPaddingAfter(g, rest);
        UrlCharsConcat(g, TrimPadding(rest));
      }
    }
  }

  /** Stripping the padding and mapping `+` and `/` to `-` and `_` turns the output of one
      encoder into that of the other. */
  lemma FormsAgree(bytes: seq<bv8>)
    ensures UrlChars(TrimPadding(Encoded(Standard, bytes))) == Encoded(Url, bytes)
  {
    var a, b := GroupCode(Standard), GroupCode(Url);
    forall g | 1 <= |g| <= 3
      ensures UrlChars(TrimPadding(a(g))) == b(g) && TrimPadding(a(g)) != ""
      ensures |g| == 3 ==> a(g) != "" && a(g)[|a(g)| - 1] != '='
    {
      GroupsAgree(g);
    }
    GroupedAgree(a, b, bytes);
  }

  // ----- the encoders -----

  lemma {:induction false} GroupsConcat(code: seq<bv8> -> string, head: seq<bv8>, tail: seq<bv8>)
    requires |head| % 3 == 0
    ensures InGroups(code, head + tail) == InGroups(code, head) + InGroups(code, tail)
    decreases |head|
  {
    if head == [] {
      assert head + tail == tail;
    } else {
      var all := head + tail;
      assert all[..3] == head[..3] && all[3..] == head[3..] + tail;
      GroupsConcat(code, head[3..], tail);
    }
  }

  lemma GroupsGrow(code: seq<bv8> -> string, bytes: seq<bv8>, i: nat)
    requires i < |bytes| && i % 3 == 0
    ensures (i + 3) % 3 == 0
    ensures InGroups(code, bytes[..Take(|bytes|, i + 3)])
      == InGroups(code, bytes[..Take(|bytes|, i)]) + code(bytes[i..Take(|bytes|, i + 3)])
  {
    var g := bytes[i..Take(|bytes|, i + 3)];
    assert bytes[..Take(|bytes|, i + 3)] == bytes[..i] + g;
    GroupsConcat(code, bytes[..i], g);
    assert g[..Take(|g|, 3)] == g && g[Take(|g|, 3)..] == [];
  }

  function Low6(x: bv32): bv6 { (x & 63) as bv6 }

  /** The 24-bit number of three bytes, shifted and masked. */
  method Cut(b0: bv8, b1: bv8, b2: bv8) returns (s0: bv6, s1: bv6, s2: bv6, s3: bv6)
    ensures s0 == Sextet0(b0) && s1 == Sextet1(b0, b1) && s2 == Sextet2(b1, b2) && s3 == Sextet3(b2)
  {
    var triple := ((b0 as bv32) << 16) | ((b1 as bv32) << 8) | (b2 as bv32);
    TripleSextets(b0, b1, b2);
    s0, s1, s2, s3 := Low6(triple >> 18), Low6(triple >> 12), Low6(triple >> 6), Low6(triple);
  }

  ghost predicate AreSextets(g: seq<bv8>, s0: bv6, s1: bv6, s2: bv6, s3: bv6) {
    && |g| > 0 && s0 == Sextet0(g[0]) && s1 == Sextet1(g[0], ByteAt(g, 1))
    && s2 == Sextet2(ByteAt(g, 1), ByteAt(g, 2)) && s3 == Sextet3(ByteAt(g, 2))
  }

  function SextetList(s0: bv6, s1: bv6, s2: bv6, s3: bv6, n: nat): seq<bv6> {
    [s0, s1] + (if n > 1 then [s2] else []) + (if n > 2 then [s3] else [])
  }

  lemma SextetsListed(g: seq<bv8>, s0: bv6, s1: bv6, s2: bv6, s3: bv6)
    requires 1 <= |g| <= 3 && AreSextets(g, s0, s1, s2, s3)
    ensures Sextets(g) == SextetList(s0, s1, s2, s3, |g|)
  {
  }

  lemma SymbolsConcat(form: Form, v: seq<bv6>, w: seq<bv6>)
    ensures Symbols(form, v + w) == Symbols(form, v) + Symbols(form, w)
  {
  }

  lemma OneSymbol(form: Form, table: string, v: bv6)
    requires IsTable(form, table)
    ensures 0 <= v as int < 64 && Symbols(form, [v]) == [table[v as int]] && Symbols(form, []) == []
  {
    SixBitsUp(v);
  }

  lemma SymbolsListed(form: Form, table: string, s0: bv6, s1: bv6, s2: bv6, s3: bv6, n: nat)
    requires IsTable(form, table)
    ensures Symbols(form, SextetList(s0, s1, s2, s3, n))
      == [table[s0 as int], table[s1 as int]]
         + (if n > 1 then [table[s2 as int]] else []) + (if n > 2 then [table[s3 as int]] else [])
  {
    var c := if n > 1 then [s2] else [];
    var d := if n > 2 then [s3] else [];
    OneSymbol(form, table, s0);
    OneSymbol(form, table, s1);
    OneSymbol(form, table, s2);
    OneSymbol(form, table, s3);
    SymbolsConcat(form, [s0], [s1]);
    assert [s0] + [s1] == [s0, s1];
    SymbolsConcat(form, [s0, s1], c);
    SymbolsConcat(form, [s0, s1] + c, d);
  }

  lemma PaddedGroup(g: seq<bv8>, table: string, s0: bv6, s1: bv6, s2: bv6, s3: bv6)
    requires IsTable(Standard, table) && 1 <= |g| <= 3 && AreSextets(g, s0, s1, s2, s3)
    ensures GroupCode(Standard)(g)
      == [table[s0 as int], table[s1 as int], if |g| > 1 then table[s2 as int] else '=',
          if |g| > 2 then table[s3 as int] else '=']
  {
    SextetsListed(g, s0, s1, s2, s3);
    SymbolsListed(Standard, table, s0, s1, s2, s3, |g|);
  }

  lemma UnpaddedGroup(g: seq<bv8>, alphabet: string, s0: bv6, s1: bv6, s2: bv6, s3: bv6)
    requires IsTable(Url, alphabet) && 1 <= |g| <= 3 && AreSextets(g, s0, s1, s2, s3)
    ensures GroupCode(Url)(g) == [alphabet[s0 as int], alphabet[s1 as int]]
      + (if |g| > 1 then [alphabet[s2 as int]] else []) + (if |g| > 2 then [alphabet[s3 as int]] else [])
  {
    SextetsListed(g, s0, s1, s2, s3);
    SymbolsListed(Url, alphabet, s0, s1, s2, s3, |g|);
  }

  /** The body of the first loop: the bytes at `i`, zero beyond the end, as four characters. */
  method EncodeTriple(bytes: seq<bv8>, i: nat, table: string, ghost g: seq<bv8>) returns (quad: string)
    requires i < |bytes| && IsTable(Standard, table) && g == bytes[i..Take(|bytes|, i + 3)]
    ensures quad == GroupCode(Standard)(g)
  {
    var b0: bv8 := bytes[i];
    var b1: bv8 := if i + 1 < |bytes| then bytes[i + 1] else 0;
    var b2: bv8 := if i + 2 < |bytes| then bytes[i + 2] else 0;
    var s0, s1, s2, s3 := Cut(b0, b1, b2);
    assert g[0] == b0 && ByteAt(g, 1) == b1 && ByteAt(g, 2) == b2;
    PaddedGroup(g, table, s0, s1, s2, s3);
    quad := [table[s0 as int], table[s1 as int], if i + 1 < |bytes| then table[s2 as int] else '=',
             if i + 2 < |bytes| then table[s3 as int] else '='];
  }

  method Base64Encode(bytes: seq<bv8>) returns (out: string)
    ensures out == Encoded(Standard, bytes)
  {
    var table, _ := Tables();
    ghost var code := GroupCode(Standard);
    out := "";
    var i := 0;
    while i < |bytes|
      invariant i % 3 == 0 && out == InGroups(code, bytes[..Take(|bytes|, i)])
    {
      ghost var g := bytes[i..Take(|bytes|, i + 3)];
      var quad := EncodeTriple(bytes, i, table, g);
      GroupsGrow(code, bytes, i);
      out := out + quad;
      i := i + 3;
    }
    assert bytes[..Take(|bytes|, i)] == bytes;
  }

  /** The body of the second loop: two to four characters for one to three bytes. */
  method EncodeChunk(chunk: seq<bv8>, alphabet: string) returns (out: string)
    requires 1 <= |chunk| <= 3 && IsTable(Url, alphabet)
    ensures out == GroupCode(Url)(chunk)
  {
    var s0, s1, s2, s3 := Cut(chunk[0], ByteAt(chunk, 1), ByteAt(chunk, 2));
    UnpaddedGroup(chunk, alphabet, s0, s1, s2, s3);
    out := [alphabet[s0 as int], alphabet[s1 as int]];
    if |chunk| > 1 {
      out := out + [alphabet[s2 as int]];
    }
    if |chunk| > 2 {
      out := out + [alphabet[s3 as int]];
    }
  }

  method Base64UrlUnpadded(bytes: seq<bv8>) returns (out: string)
    ensures out == Encoded(Url, bytes)
  {
    var _, alphabet := Tables();
    ghost var code := GroupCode(Url);
    out := "";
    var i := 0;
    while i < |bytes|
      invariant i % 3 == 0 && out == InGroups(code, bytes[..Take(|bytes|, i)])
    {
      var symbols := EncodeChunk(bytes[i..Take(|bytes|, i + 3)], alphabet);
      GroupsGrow(code, bytes, i);
      out := out + symbols;
      i := i + 3;
    }
    assert bytes[..Take(|bytes|, i)] == bytes;
  }
}
