/**
 The string operations of the Rust and Go standard libraries that the modelled code
 relies on, defined once and generic in the element type, so that they serve byte
 strings (DNS packets, logs) as well as character strings (CIDRs, resolver files).
 */
module Text {
  import opened Wrappers

  /** `str::split` on a single separator: always at least one, possibly empty, piece. */
  function Split<T(==)>(s: seq<T>, sep: T): (parts: seq<seq<T>>)
    ensures |parts| >= 1
    ensures forall i :: 0 <= i < |parts| ==> sep !in parts[i]
  {
    if s == [] then [[]]
    else
      var rest := Split(s[1..], sep);
      if s[0] == sep then [[]] + rest else [[s[0]] + rest[0]] + rest[1..]
  }

  /** `[T]::join` with a single separator. */
  function Join<T>(parts: seq<seq<T>>, sep: T): seq<T> {
    if |parts| == 0 then []
    else if |parts| == 1 then parts[0]
    else parts[0] + [sep] + Join(parts[1..], sep)
  }

  lemma {:induction false} SplitPrefix<T>(head: seq<T>, tail: seq<T>, sep: T)
    requires sep !in head
    ensures Split(head + [sep] + tail, sep) == [head] + Split(tail, sep)
  {
    if head == [] {
      assert (head + [sep] + tail)[1..] == tail;
    } else {
      assert (head + [sep] + tail)[1..] == head[1..] + [sep] + tail;
      SplitPrefix(head[1..], tail, sep);
      assert head == [head[0]] + head[1..];
    }
  }

  lemma {:induction false} SplitWhole<T>(s: seq<T>, sep: T)
    requires sep !in s
    ensures Split(s, sep) == [s]
  {
    if s != [] {
      SplitWhole(s[1..], sep);
      assert s == [s[0]] + s[1..];
    }
  }

  lemma {:induction false} SplitCounts<T>(s: seq<T>, t: seq<T>, sep: T)
    ensures |Split(s + [sep] + t, sep)| == |Split(s, sep)| + |Split(t, sep)|
  {
    if s == [] {
      assert (s + [sep] + t)[1..] == t;
    } else {
      assert (s + [sep] + t)[1..] == s[1..] + [sep] + t;
      SplitCounts(s[1..], t, sep);
    }
  }

  lemma {:induction false} SplitAtLeastTwo<T>(s: seq<T>, sep: T)
    requires sep in s
    ensures |Split(s, sep)| >= 2
  {
    if s[0] != sep {
      SplitAtLeastTwo(s[1..], sep);
    }
  }

  /** Splitting a joined list gives the list back when no piece holds the separator. */
  lemma {:induction false} SplitJoin<T>(parts: seq<seq<T>>, sep: T)
    requires |parts| >= 1
    requires forall i :: 0 <= i < |parts| ==> sep !in parts[i]
    ensures Split(Join(parts, sep), sep) == parts
  {
    if |parts| == 1 {
      SplitWhole(parts[0], sep);
    } else {
      SplitPrefix(parts[0], Join(parts[1..], sep), sep);
      SplitJoin(parts[1..], sep);
    }
  }

  /** Joining what was split gives the string back. */
  lemma {:induction false} JoinSplit<T>(s: seq<T>, sep: T)
    ensures Join(Split(s, sep), sep) == s
  {
    if s != [] {
      JoinSplit(s[1..], sep);
      var rest := Split(s[1..], sep);
      if s[0] == sep {
        assert ([[]] + rest)[1..] == rest;
      } else {
        var parts := [[s[0]] + rest[0]] + rest[1..];
        assert parts[1..] == rest[1..];
      }
    }
  }

  lemma Regroup<T>(a: seq<T>, b: seq<T>, c: seq<T>)
    ensures a + (b + c) == (a + b) + c
  {
  }

  predicate IsDigit(c: char) { '0' <= c <= '9' }

  predicate AllDigits(s: string) { forall i :: 0 <= i < |s| ==> IsDigit(s[i]) }

  function DigitValue(s: string): nat
    requires AllDigits(s)
  {
    if s == "" then 0
    else DigitValue(s[..|s| - 1]) * 10 + (s[|s| - 1] as int - '0' as int)
  }

  /** Rust's `FromStr` for unsigned integers: an optional `+`, then at least one digit,
      and a value that fits. */
  function ParseUnsigned(s: string, max: nat): (r: Option<nat>)
    ensures r.Some? ==> r.value <= max
  {
    var digits := if s != "" && s[0] == '+' then s[1..] else s;
    if digits != "" && AllDigits(digits) && DigitValue(digits) <= max
    then Some(DigitValue(digits)) else None
  }

  /** `to_string` of an unsigned integer. */
  function Decimal(n: nat): (s: string)
    ensures s != "" && AllDigits(s)
  {
    if n < 10 then [('0' as int + n) as char]
    else Decimal(n / 10) + [('0' as int + n % 10) as char]
  }

  lemma {:induction false} DigitValueDecimal(n: nat)
    ensures DigitValue(Decimal(n)) == n
  {
    if n >= 10 {
      DigitValueDecimal(n / 10);
      assert Decimal(n)[..|Decimal(n)| - 1] == Decimal(n / 10);
    } else {
      assert Decimal(n)[..0] == "";
    }
  }

  /** Printing and parsing a number round-trips, so printing is injective. */
  lemma ParseDecimal(n: nat, max: nat)
    requires n <= max
    ensures ParseUnsigned(Decimal(n), max) == Some(n)
  {
    assert IsDigit(Decimal(n)[0]);
    DigitValueDecimal(n);
  }

  function Zeros(k: nat): string { seq(k, _ => '0') }

  lemma {:induction false} LeadingZeros(k: nat, s: string)
    requires AllDigits(s)
    ensures AllDigits(Zeros(k) + s) && DigitValue(Zeros(k) + s) == DigitValue(s)
    decreases k + |s|
  {
    var t := Zeros(k) + s;
    if s != "" {
      assert t[..|t| - 1] == Zeros(k) + s[..|s| - 1];
      LeadingZeros(k, s[..|s| - 1]);
    } else if k > 0 {
      assert t[..|t| - 1] == Zeros(k - 1) + s && t[|t| - 1] == '0';
      LeadingZeros(k - 1, s);
    }
  }

  /** A number is read whatever zeros precede it, with or without one plus sign, if it fits. */
  lemma ParsePadded(k: nat, n: nat, max: nat)
    ensures
      var digits := Zeros(k) + Decimal(n);
      && ParseUnsigned(digits, max) == (if n <= max then Some(n) else None)
      && ParseUnsigned(['+'] + digits, max) == (if n <= max then Some(n) else None)
  {
    LeadingZeros(k, Decimal(n));
    DigitValueDecimal(n);
    ParseDigits(Zeros(k) + Decimal(n), max);
  }

  lemma ParseDigits(digits: string, max: nat)
    requires digits != "" && AllDigits(digits)
    ensures
      var value := if DigitValue(digits) <= max then Some(DigitValue(digits)) else None;
      ParseUnsigned(digits, max) == value && ParseUnsigned(['+'] + digits, max) == value
  {
    assert IsDigit(digits[0]) && (['+'] + digits)[1..] == digits;
  }

  /** What is read is made of digits, behind at most one plus sign. */
  lemma ParsedIsNumber(s: string, max: nat)
    requires ParseUnsigned(s, max).Some?
    ensures s != "" && (s[0] == '+' || IsDigit(s[0])) && forall i :: 1 <= i < |s| ==> IsDigit(s[i])
    ensures s != "+"
  {
    var digits := if s[0] == '+' then s[1..] else s;
    assert forall i :: 1 <= i < |s| ==> s[i] == if s[0] == '+' then digits[i - 1] else digits[i];
  }

  lemma DecimalHasNo(n: nat, c: char)
    requires !IsDigit(c)
    ensures c !in Decimal(n)
  {
  }

  predicate StartsWith<T(==)>(s: seq<T>, prefix: seq<T>) { prefix <= s }

  predicate EndsWith<T(==)>(s: seq<T>, suffix: seq<T>) {
    |suffix| <= |s| && s[|s| - |suffix|..] == suffix
  }
}
