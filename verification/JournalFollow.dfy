/**
 The log stream of the guest agent: a snapshot, then the lines that `journalctl -f` prints,
 read in chunks of any size and numbered on from the snapshot.
 */
module JournalFollow {
  import opened Wrappers
  import opened Bytes
  import opened Text

  const LF: byte := 10

  /** Trimming, JSON decoding with the mapping of fields, and the query. The mapping gets the
      index too, but only to store it, and the query does not look at it. */
  datatype Journal<!E> = Journal(trim: seq<byte> -> seq<byte>, decode: seq<byte> -> Option<E>, matches: E -> bool)

  datatype Event<E> = Event(index: nat, entry: E)

  // ----- what the stream should hold -----

  function Flatten(chunks: seq<seq<byte>>): seq<byte> {
    if chunks == [] then [] else Flatten(chunks[..|chunks| - 1]) + chunks[|chunks| - 1]
  }

  /** The terminated lines of a byte stream, and the bytes after the last newline. */
  function Lines(s: seq<byte>): seq<seq<byte>> { Split(s, LF)[..|Split(s, LF)| - 1] }

  function Fragment(s: seq<byte>): seq<byte> { Split(s, LF)[|Split(s, LF)| - 1] }

  /** The entry of a line: None for a blank, undecodable or filtered line. */
  function EntryOf<E>(j: Journal<E>, line: seq<byte>): Option<E> {
    var text := j.trim(line);
    if text == [] then None
    else
      var entry := j.decode(text);
      if entry.Some? && j.matches(entry.value) then entry else None
  }

  function Selected<E>(j: Journal<E>, lines: seq<seq<byte>>): seq<E> {
    if lines == [] then []
    else
      var entry := EntryOf(j, lines[|lines| - 1]);
      Selected(j, lines[..|lines| - 1]) + (if entry.Some? then [entry.value] else [])
  }

  function Filtered<E>(j: Journal<E>, entries: seq<E>): seq<E> {
    if entries == [] then []
    else
      var last := entries[|entries| - 1];
      Filtered(j, entries[..|entries| - 1]) + (if j.matches(last) then [last] else [])
  }

  /** A line that is shown, as this entry: not blank, decoded, and matched by the query. */
  predicate Shown<E(==)>(j: Journal<E>, line: seq<byte>, entry: E) {
    j.trim(line) != [] && j.decode(j.trim(line)) == Some(entry) && j.matches(entry)
  }

  function Somes<E>(options: seq<Option<E>>): seq<E> {
    if options == [] then []
    else
      var last := options[|options| - 1];
      Somes(options[..|options| - 1]) + (if last.Some? then [last.value] else [])
  }

  predicate Increasing(at: seq<nat>) { forall i, k :: 0 <= i < k < |at| ==> at[i] < at[k] }

  predicate PickedAt<E(==)>(options: seq<Option<E>>, at: seq<nat>, i: nat, value: E) {
    i < |at| && at[i] < |options| && options[at[i]] == Some(value)
  }

  /** `at` are the positions of what `Somes` keeps. */
  ghost predicate Picks<E>(options: seq<Option<E>>, kept: seq<E>, at: seq<nat>) {
    && |at| == |kept| && Increasing(at)
    && (forall i :: 0 <= i < |at| ==> PickedAt(options, at, i, kept[i]))
    && (forall k :: 0 <= k < |options| && options[k].Some? ==> k in at)
  }

  lemma PicksNone<E>(options: seq<Option<E>>, kept: seq<E>, at: seq<nat>)
    requires Picks(options, kept, at)
    ensures Picks(options + [None], kept, at)
  {
    forall i | 0 <= i < |at| ensures PickedAt(options + [None], at, i, kept[i]) {
      assert PickedAt(options, at, i, kept[i]);
    }
  }

  lemma PicksSome<E>(options: seq<Option<E>>, kept: seq<E>, at: seq<nat>, value: E)
    requires Picks(options, kept, at)
    ensures Picks(options + [Some(value)], kept + [value], at + [|options|])
  {
    var longer, more := options + [Some(value)], at + [|options|];
    forall i | 0 <= i < |more| ensures PickedAt(longer, more, i, (kept + [value])[i]) {
      assert i < |at| ==> PickedAt(options, at, i, kept[i]);
    }
    forall i, k | 0 <= i < k < |more| ensures more[i] < more[k] {
      assert PickedAt(options, at, i, kept[i]);
    }
    assert more[|at|] == |options|;
  }

  lemma {:induction false} SomesAt<E>(options: seq<Option<E>>) returns (at: seq<nat>)
    ensures Picks(options, Somes(options), at)
    decreases |options|
  {
    at := [];
    if options != [] {
      var front, last := options[..|options| - 1], options[|options| - 1];
      var before := SomesAt(front);
      assert options == front + [last];
      at := if last.Some? then before + [|front|] else before;
      if last.Some? {
        PicksSome(front, Somes(front), before, last.value);
      } else {
        PicksNone(front, Somes(front), before);
      }
    }
  }

  function Entries<E>(j: Journal<E>, lines: seq<seq<byte>>): (options: seq<Option<E>>)
    ensures |options| == |lines|
  {
    seq(|lines|, i requires 0 <= i < |lines| => EntryOf(j, lines[i]))
  }

  lemma {:induction false} SelectedSomes<E>(j: Journal<E>, lines: seq<seq<byte>>)
    ensures Selected(j, lines) == Somes(Entries(j, lines))
    decreases |lines|
  {
    if lines != [] {
      SelectedSomes(j, lines[..|lines| - 1]);
      assert Entries(j, lines)[..|lines| - 1] == Entries(j, lines[..|lines| - 1]);
    }
  }

  /** Exactly the lines that are shown are selected, in their order. */
  lemma SelectedShown<E>(j: Journal<E>, lines: seq<seq<byte>>) returns (at: seq<nat>)
    ensures |at| == |Selected(j, lines)| && Increasing(at)
    ensures forall i :: 0 <= i < |at| ==> at[i] < |lines| && Shown(j, lines[at[i]], Selected(j, lines)[i])
    ensures forall k, entry :: 0 <= k < |lines| && Shown(j, lines[k], entry) ==> k in at
  {
    var options := Entries(j, lines);
    SelectedSomes(j, lines);
    at := SomesAt(options);
    forall i | 0 <= i < |at| ensures at[i] < |lines| && Shown(j, lines[at[i]], Selected(j, lines)[i]) {
      assert PickedAt(options, at, i, Somes(options)[i]);
    }
    forall k, entry | 0 <= k < |lines| && Shown(j, lines[k], entry) ensures k in at {
      assert options[k] == Some(entry);
    }
  }

  function Matches<E>(j: Journal<E>, entries: seq<E>): (options: seq<Option<E>>)
    ensures |options| == |entries|
  {
    seq(|entries|, i requires 0 <= i < |entries| => if j.matches(entries[i]) then Some(entries[i]) else None)
  }

  lemma {:induction false} FilteredSomes<E>(j: Journal<E>, entries: seq<E>)
    ensures Filtered(j, entries) == Somes(Matches(j, entries))
    decreases |entries|
  {
    if entries != [] {
      FilteredSomes(j, entries[..|entries| - 1]);
      assert Matches(j, entries)[..|entries| - 1] == Matches(j, entries[..|entries| - 1]);
    }
  }

  /** Exactly the matching entries of the snapshot are kept, in their order. */
  lemma FilteredMatch<E>(j: Journal<E>, entries: seq<E>) returns (at: seq<nat>)
    ensures |at| == |Filtered(j, entries)| && Increasing(at)
    ensures forall i :: 0 <= i < |at| ==>
      at[i] < |entries| && Filtered(j, entries)[i] == entries[at[i]] && j.matches(entries[at[i]])
    ensures forall k :: 0 <= k < |entries| && j.matches(entries[k]) ==> k in at
  {
    var options := Matches(j, entries);
    FilteredSomes(j, entries);
    at := SomesAt(options);
    forall i | 0 <= i < |at|
      ensures at[i] < |entries| && Filtered(j, entries)[i] == entries[at[i]] && j.matches(entries[at[i]])
    {
      assert PickedAt(options, at, i, Somes(options)[i]);
    }
    forall k | 0 <= k < |entries| && j.matches(entries[k]) ensures k in at {
      assert options[k].Some?;
    }
  }

  function Numbered<E>(entries: seq<E>, first: nat): seq<Event<E>> {
    seq(|entries|, i requires 0 <= i < |entries| => Event(first + i, entries[i]))
  }

  function Followed<E>(j: Journal<E>, n: nat, bytes: seq<byte>): seq<Event<E>> {
    Numbered(Selected(j, Lines(bytes)), n + 1)
  }

  /** The whole stream: the filtered snapshot numbered from zero, then the selected entries of
      the terminated lines, numbered from one after the snapshot's length. */
  function Stream<E>(j: Journal<E>, snapshot: seq<E>, bytes: seq<byte>): seq<Event<E>> {
    var shown := Filtered(j, snapshot);
    Numbered(shown, 0) + Followed(j, |shown|, bytes)
  }

  // ----- cutting the stream -----

  /** `bytes.IndexByte`. */
  function IndexByte(s: seq<byte>, b: byte): (r: Option<nat>)
    ensures r.Some? ==> r.value < |s| && s[r.value] == b && b !in s[..r.value]
    ensures r.None? ==> b !in s
  {
    if s == [] then None
    else if s[0] == b then Some(0)
    else
      var rest := IndexByte(s[1..], b);
      assert s == [s[0]] + s[1..];
      if rest.None? then None
      else
        assert s[..rest.value + 1] == [s[0]] + s[1..][..rest.value];
        Some(rest.value + 1)
  }

  /** The first line of `s`, whatever follows `s`. */
  lemma CutLine(s: seq<byte>, i: nat, more: seq<byte>)
    requires i < |s| && s[i] == LF && LF !in s[..i]
    ensures Split(s, LF) == [s[..i]] + Split(s[i + 1..], LF)
    ensures Split(s + more, LF) == [s[..i]] + Split(s[i + 1..] + more, LF)
  {
    var line, rest := s[..i], s[i + 1..];
    Around(s, i, more);
    SplitPrefix(line, rest, LF);
    SplitPrefix(line, rest + more, LF);
  }

  lemma Around(s: seq<byte>, i: nat, more: seq<byte>)
    requires i < |s| && s[i] == LF
    ensures s == s[..i] + [LF] + s[i + 1..] && s + more == s[..i] + [LF] + (s[i + 1..] + more)
  {
  }

  /** What follows only changes the fragment. */
  lemma {:induction false} SplitAppend(s: seq<byte>, more: seq<byte>)
    ensures Split(s + more, LF) == Lines(s) + Split(Fragment(s) + more, LF)
    decreases |s|
  {
    var idx := IndexByte(s, LF);
    if idx.None? {
      SplitWhole(s, LF);
      assert Lines(s) == [];
    } else {
      var line, rest := s[..idx.value], s[idx.value + 1..];
      CutLine(s, idx.value, more);
      SplitAppend(rest, more);
      FirstLine(s, line, rest);
      Regroup([line], Lines(rest), Split(Fragment(rest) + more, LF));
    }
  }

  lemma FirstLine(s: seq<byte>, line: seq<byte>, rest: seq<byte>)
    requires Split(s, LF) == [line] + Split(rest, LF)
    ensures Lines(s) == [line] + Lines(rest) && Fragment(s) == Fragment(rest)
  {
  }

  lemma {:induction false} SelectedConcat<E>(j: Journal<E>, a: seq<seq<byte>>, b: seq<seq<byte>>)
    ensures Selected(j, a + b) == Selected(j, a) + Selected(j, b)
    decreases |b|
  {
    if b == [] {
      assert a + b == a;
    } else {
      var all := a + b;
      assert all[..|all| - 1] == a + b[..|b| - 1] && all[|all| - 1] == b[|b| - 1];
      SelectedConcat(j, a, b[..|b| - 1]);
    }
  }

  lemma NumberedConcat<E>(a: seq<E>, b: seq<E>, first: nat)
    ensures Numbered(a + b, first) == Numbered(a, first) + Numbered(b, first + |a|)
  {
  }

  /** Indices strictly increase over snapshot and follow, and exactly one is left out: the
      snapshot's length, once anything follows. */
  lemma IndicesIncrease<E>(j: Journal<E>, snapshot: seq<E>, bytes: seq<byte>)
    ensures
      var events, n := Stream(j, snapshot, bytes), |Filtered(j, snapshot)|;
      && (forall k, l :: 0 <= k < l < |events| ==> events[k].index < events[l].index)
      && (forall k :: 0 <= k < |events| ==> events[k].index == if k < n then k else k + 1)
      && (forall k :: 0 <= k < |events| ==> events[k].index != n)
  {
  }

  /** The entries of the stream: those of the snapshot that match, then those of the lines. */
  lemma StreamEntries<E>(j: Journal<E>, snapshot: seq<E>, bytes: seq<byte>)
    ensures
      var events, shown, later := Stream(j, snapshot, bytes), Filtered(j, snapshot), Selected(j, Lines(bytes));
      && |events| == |shown| + |later|
      && forall k :: 0 <= k < |events| ==>
           events[k].entry == if k < |shown| then shown[k] else later[k - |shown|]
  {
  }

  function Ended(lines: seq<seq<byte>>): seq<byte> {
    if lines == [] then [] else lines[0] + [10] + Ended(lines[1..])
  }

  /** The bytes are the lines, each ended by a newline, and the rest; no newline is in a line or in
      the rest. */
  lemma {:induction false} LinesSpelled(s: seq<byte>)
    ensures Ended(Lines(s)) + Fragment(s) == s
    ensures 10 !in Fragment(s) && forall i :: 0 <= i < |Lines(s)| ==> 10 !in Lines(s)[i]
    decreases |s|
  {
    if s == [] {
      assert Split(s, LF) == [[]] && Lines(s) == [];
    } else {
      LinesSpelled(s[1..]);
      FirstByte(s);
    }
  }

  /** A newline at the front ends an empty line, and any other byte begins the first line. */
  lemma FirstByte(s: seq<byte>)
    requires s != [] && Ended(Lines(s[1..])) + Fragment(s[1..]) == s[1..]
    ensures Ended(Lines(s)) + Fragment(s) == s
    ensures s[0] == LF ==> Lines(s) == [[]] + Lines(s[1..]) && Fragment(s) == Fragment(s[1..])
    ensures s[0] != LF && Lines(s[1..]) == [] ==> Lines(s) == [] && Fragment(s) == [s[0]] + Fragment(s[1..])
    ensures s[0] != LF && Lines(s[1..]) != [] ==>
      Lines(s) == [[s[0]] + Lines(s[1..])[0]] + Lines(s[1..])[1..] && Fragment(s) == Fragment(s[1..])
  {
    var lines, rest := Lines(s[1..]), Split(s[1..], LF);
    assert rest == lines + [Fragment(s[1..])] && s == [s[0]] + s[1..];
    if s[0] == LF {
      assert Split(s, LF) == [[]] + rest;
      assert Lines(s) == [[]] + lines && Lines(s)[1..] == lines;
    } else if lines == [] {
      assert Split(s, LF) == [[s[0]] + rest[0]] + rest[1..] && rest[1..] == [];
    } else {
      var first := [s[0]] + lines[0];
      assert Split(s, LF) == [first] + rest[1..];
      assert Lines(s) == [first] + lines[1..] && Lines(s)[1..] == lines[1..];
    }
  }

  // ----- the handler -----

  /** `applyQueryFilters`: keep what matches, then number it. */
  method ApplyQueryFilters<E>(j: Journal<E>, entries: seq<E>) returns (out: seq<Event<E>>)
    ensures out == Numbered(Filtered(j, entries), 0)
  {
    var kept: seq<E> := [];
    var i := 0;
    while i < |entries|
      invariant i <= |entries| && kept == Filtered(j, entries[..i])
    {
      assert entries[..i + 1][..i] == entries[..i];
      if j.matches(entries[i]) {
        kept := kept + [entries[i]];
      }
      i := i + 1;
    }
    assert entries[..i] == entries;
    out := [];
    i := 0;
    while i < |kept|
      invariant i <= |kept| && out == Numbered(kept[..i], 0)
    {
      NumberedConcat(kept[..i], [kept[i]], 0);
      assert kept[..i + 1] == kept[..i] + [kept[i]];
      out := out + [Event(i, kept[i])];
      i := i + 1;
    }
    assert kept[..i] == kept;
  }

  /** State of the follow loop: everything before the fragment has been turned into events. */
  ghost predicate Following<E>(j: Journal<E>, first: nat, lines: seq<seq<byte>>, out: seq<Event<E>>, index: nat) {
    index == first + |Selected(j, lines)| && out == Numbered(Selected(j, lines), first + 1)
  }

  lemma LineRead<E>(j: Journal<E>, first: nat, lines: seq<seq<byte>>, line: seq<byte>, out: seq<Event<E>>, index: nat)
    requires Following(j, first, lines, out, index)
    ensures EntryOf(j, line).None? ==> Following(j, first, lines + [line], out, index)
    ensures EntryOf(j, line).Some?
      ==> Following(j, first, lines + [line], out + [Event(index + 1, EntryOf(j, line).value)], index + 1)
  {
    assert (lines + [line])[..|lines|] == lines;
    if EntryOf(j, line).Some? {
      NumberedConcat(Selected(j, lines), [EntryOf(j, line).value], first + 1);
    }
  }

  predicate Room<E>(room: Option<nat>, out: seq<Event<E>>) { room.Some? ==> |out| <= room.value }

  /** How far the inner loop is: `lines` and the lines of `buf` are all lines. */
  ghost predicate Draining(lines: seq<seq<byte>>, buf: seq<byte>, before: seq<seq<byte>>, buffer: seq<byte>) {
    lines + Split(buf, LF) == before + Split(buffer, LF)
  }

  lemma DrainOne(lines: seq<seq<byte>>, buf: seq<byte>, before: seq<seq<byte>>, buffer: seq<byte>, i: nat)
    requires Draining(lines, buf, before, buffer) && i < |buf| && buf[i] == LF && LF !in buf[..i]
    ensures Draining(lines + [buf[..i]], buf[i + 1..], before, buffer)
    ensures lines + [buf[..i]] <= before + Lines(buffer)
  {
    CutLine(buf, i, []);
    Regroup(lines, [buf[..i]], Split(buf[i + 1..], LF));
    AllButLast(lines + [buf[..i]], Split(buf[i + 1..], LF), before, Split(buffer, LF));
  }

  lemma DrainedAll(lines: seq<seq<byte>>, buf: seq<byte>, before: seq<seq<byte>>, buffer: seq<byte>)
    requires Draining(lines, buf, before, buffer) && LF !in buf
    ensures buf == Fragment(buffer) && lines == before + Lines(buffer)
  {
    SplitWhole(buf, LF);
    AllButLast(lines, [buf], before, Split(buffer, LF));
    assert lines + [buf][..0] == lines;
  }

  /** The inner loop: every line the buffer completes, in order. `room` is the number of events
      that can be written before a write fails. */
  method DrainLines<E>(j: Journal<E>, buffer: seq<byte>, first: nat, written: seq<Event<E>>, next: nat,
                       room: Option<nat>, ghost before: seq<seq<byte>>)
    returns (buf: seq<byte>, out: seq<Event<E>>, index: nat, failed: bool)
    requires Following(j, first, before, written, next) && Room(room, written)
    ensures Room(room, out)
    ensures !failed ==> buf == Fragment(buffer) && Following(j, first, before + Lines(buffer), out, index)
    ensures failed ==> room == Some(|out|) && out < Numbered(Selected(j, before + Lines(buffer)), first + 1)
  {
    buf, out, index, failed := buffer, written, next, false;
    ghost var lines := before;
    while true
      invariant Following(j, first, lines, out, index) && Room(room, out)
      invariant Draining(lines, buf, before, buffer)
      decreases |buf|
    {
      var idx := IndexByte(buf, LF);
      if idx.None? {
        DrainedAll(lines, buf, before, buffer);
        return;
      }
      var line := buf[..idx.value];
      DrainOne(lines, buf, before, buffer, idx.value);
      LineRead(j, first, lines, line, out, index);
      var entry := EntryOf(j, line);
      if entry.Some? && room == Some(|out|) {
        failed := true;
        Selection(j, lines + [line], before + Lines(buffer), first + 1);
        return;
      }
      buf, lines := buf[idx.value + 1..], lines + [line];
      if entry.Some? {
        index := index + 1;
        out := out + [Event(index, entry.value)];
      }
    }
  }

  lemma Selection<E>(j: Journal<E>, some: seq<seq<byte>>, all: seq<seq<byte>>, first: nat)
    requires some <= all
    ensures Numbered(Selected(j, some), first) <= Numbered(Selected(j, all), first)
  {
    assert all == some + all[|some|..];
    SelectedConcat(j, some, all[|some|..]);
    NumberedConcat(Selected(j, some), Selected(j, all[|some|..]), first);
  }

  lemma AllButLast<T>(a: seq<T>, x: seq<T>, b: seq<T>, c: seq<T>)
    requires a + x == b + c && c != [] && x != []
    ensures a + x[..|x| - 1] == b + c[..|c| - 1] && x[|x| - 1] == c[|c| - 1]
    ensures a <= b + c[..|c| - 1]
  {
    assert (a + x)[..|a| + |x| - 1] == a + x[..|x| - 1];
    assert (b + c)[..|b| + |c| - 1] == b + c[..|c| - 1];
    assert (a + x)[|a| + |x| - 1] == x[|x| - 1] && (b + c)[|b| + |c| - 1] == c[|c| - 1];
    assert a <= a + x[..|x| - 1];
  }

  lemma FollowedGrows<E>(j: Journal<E>, n: nat, s: seq<byte>, more: seq<byte>)
    ensures Followed(j, n, s) <= Followed(j, n, s + more)
  {
    LinesAppend(s, more);
    Selection(j, Lines(s), Lines(s + more), n + 1);
  }

  lemma LinesAppend(s: seq<byte>, more: seq<byte>)
    ensures Lines(s + more) == Lines(s) + Lines(Fragment(s) + more)
    ensures Fragment(s + more) == Fragment(Fragment(s) + more)
  {
    SplitAppend(s, more);
    AllButLast([], Split(s + more, LF), Lines(s), Split(Fragment(s) + more, LF));
  }

  /** The follow loop: read, add to the buffer, drain it. */
  method Follow<E>(j: Journal<E>, n: nat, chunks: seq<seq<byte>>, room: Option<nat>)
    returns (out: seq<Event<E>>, failed: bool)
    ensures out <= Followed(j, n, Flatten(chunks)) && Room(room, out)
    ensures !failed ==> out == Followed(j, n, Flatten(chunks))
    ensures failed ==> room == Some(|out|) && |out| < |Followed(j, n, Flatten(chunks))|
  {
    var k := 0;
    var buf: seq<byte>, index: nat := [], n;
    out, failed := [], false;
    while k < |chunks|
      invariant k <= |chunks| && buf == Fragment(Flatten(chunks[..k])) && Room(room, out)
      invariant Following(j, n, Lines(Flatten(chunks[..k])), out, index)
    {
      ghost var done := Flatten(chunks[..k]);
      Extend(chunks, k);
      LinesAppend(done, chunks[k]);
      buf, out, index, failed := DrainLines(j, buf + chunks[k], n, out, index, room, Lines(done));
      if failed {
        ghost var rest := Upto(chunks, k + 1);
        FollowedGrows(j, n, Flatten(chunks[..k + 1]), rest);
        return;
      }
      k := k + 1;
    }
    assert chunks[..k] == chunks;
  }

  /** The events `writeSSE` writes for log lines: all of the stream, whatever the sizes of the
      reads, or, if a write fails, what came before it. */
  method WriteSse<E>(j: Journal<E>, snapshot: seq<E>, chunks: seq<seq<byte>>, room: Option<nat>)
    returns (events: seq<Event<E>>, failed: bool)
    ensures events <= Stream(j, snapshot, Flatten(chunks)) && Room(room, events)
    ensures !failed ==> events == Stream(j, snapshot, Flatten(chunks))
    ensures failed ==> room == Some(|events|)
    ensures failed <==> room.Some? && room.value < |Stream(j, snapshot, Flatten(chunks))|
  {
    var shown := ApplyQueryFilters(j, snapshot);
    if room.Some? && room.value < |shown| {
      return shown[..room.value], true;
    }
    var left := if room.Some? then Some(room.value - |shown|) else None;
    var out;
    out, failed := Follow(j, |shown|, chunks, left);
    Prefixes(shown, out, Followed(j, |shown|, Flatten(chunks)));
    events := shown + out;
  }

  lemma Prefixes<T>(a: seq<T>, b: seq<T>, c: seq<T>)
    requires b <= c
    ensures a + b <= a + c
  {
  }

  lemma Extend(chunks: seq<seq<byte>>, k: nat)
    requires k < |chunks|
    ensures Flatten(chunks[..k + 1]) == Flatten(chunks[..k]) + chunks[k]
  {
    assert chunks[..k + 1][..k] == chunks[..k];
  }

  lemma {:induction false} Upto(chunks: seq<seq<byte>>, k: nat) returns (rest: seq<byte>)
    requires k <= |chunks|
    ensures Flatten(chunks) == Flatten(chunks[..k]) + rest
    decreases |chunks| - k
  {
    if k == |chunks| {
      assert chunks[..k] == chunks;
      rest := [];
    } else {
      Extend(chunks, k);
      var tail := Upto(chunks, k + 1);
      rest := chunks[k] + tail;
      assert (Flatten(chunks[..k]) + chunks[k]) + tail == Flatten(chunks[..k]) + rest;
    }
  }
}
