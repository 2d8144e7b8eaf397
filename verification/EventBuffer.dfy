/**
 The guest agent's event ring buffer (`eventBuffer` in events.go): a circular array that
 always holds the last events, and what a client that polls with cursors receives.
 */
module EventBuffer {

  datatype Event = Event(id: string, unit: string, active: string, sub: string)

  const BLANK := Event("", "", "", "")
  const DEFAULT_CAPACITY := 512

  // ----- specification on the sequence of all events -----

  function Last<T>(s: seq<T>, n: nat): (r: seq<T>)
    ensures |r| == if |s| <= n then |s| else n
  {
    if |s| <= n then s else s[|s| - n..]
  }

  /** `lastID`. */
  function LastId(events: seq<Event>): string { if events == [] then "" else events[|events| - 1].id }

  /** Start of the events after the first one with the given ID; 0 when there is none. */
  function StartAfter(events: seq<Event>, id: string): (start: nat)
    ensures start <= |events|
  {
    if events == [] then 0
    else if events[0].id == id then 1
    else if exists i :: 0 <= i < |events| && events[i].id == id then 1 + StartAfter(events[1..], id)
    else 0
  }

  function EffectiveLimit(limit: int, capacity: nat): (l: nat)
    requires capacity > 0
    ensures 0 < l <= capacity
  {
    var positive := if limit <= 0 then 100 else limit;
    if positive > capacity then capacity else positive
  }

  /** What a poll answers when `history` are all events ever appended. */
  function Answer(history: seq<Event>, capacity: nat, cursor: string, limit: int): (r: (seq<Event>, string))
    requires capacity > 0
  {
    var held := Last(history, capacity);
    var unseen := if cursor == "" then held else held[StartAfter(held, cursor)..];
    (Last(unseen, EffectiveLimit(limit, capacity)), LastId(held))
  }

  lemma LastAppended<T>(s: seq<T>, n: nat, e: T)
    requires n > 0
    ensures Last(s + [e], n) == if |s| < n then s + [e] else Last(s, n)[1..] + [e]
  {
  }

  lemma NextIndex(next: nat, n: nat)
    requires next < n
    ensures (next + 1) % n == if next + 1 < n then next + 1 else 0
  {
  }

  /** Overwriting the oldest slot and moving on drops the oldest element and appends. */
  lemma Overwritten<T>(a: seq<T>, next: nat, e: T, m: nat)
    requires next < |a| && m == if next + 1 < |a| then next + 1 else 0
    ensures a[next := e][m..] + a[next := e][..m] == (a[next..] + a[..next])[1..] + [e]
  {
    var b := a[next := e];
    if next + 1 < |a| {
      assert b[..m] == a[..next] + [e] && b[m..] == a[m..];
      assert (a[next..] + a[..next])[1..] == a[m..] + a[..next];
    } else {
      assert b == a[..next] + [e] && a[next..] == [a[next]];
      assert b[0..] + b[..0] == b;
    }
  }

  lemma WrappedAround<T>(history: seq<T>, a: seq<T>, next: nat, e: T, m: nat)
    requires next < |a| <= |history| && m == (next + 1) % |a| && a[next..] + a[..next] == Last(history, |a|)
    ensures m < |a| && a[next := e][m..] + a[next := e][..m] == Last(history + [e], |a|)
  {
    NextIndex(next, |a|);
    Overwritten(a, next, e, m);
    LastAppended(history, |a|, e);
  }

  /** Unfolds an answer once it is known what the cursor leaves unseen. */
  lemma AnswerOf(history: seq<Event>, capacity: nat, cursor: string, limit: int, held: seq<Event>, unseen: seq<Event>)
    requires capacity > 0 && held == Last(history, capacity)
    requires unseen == if cursor == "" then held else held[StartAfter(held, cursor)..]
    ensures Answer(history, capacity, cursor, limit) == (Last(unseen, EffectiveLimit(limit, capacity)), LastId(held))
  {
  }

  // ----- the same, spelled out -----

  function Max(a: int, b: int): int { if a < b then b else a }

  function Min(a: int, b: int): int { if a < b then a else b }

  /** `start` events of `held` are not after the first event with the cursor's ID. */
  predicate StartsAfterCursor(held: seq<Event>, cursor: string, start: nat) {
    if start == 0 then cursor == "" || forall i :: 0 <= i < |held| ==> held[i].id != cursor
    else
      && cursor != "" && start <= |held| && held[start - 1].id == cursor
      && forall i :: 0 <= i < start - 1 ==> held[i].id != cursor
  }

  lemma LastOfSuffix(h: seq<Event>, from: nat, l: nat)
    requires from <= |h|
    ensures Last(h[from..], l) == h[Max(from, |h| - l)..]
  {
  }

  lemma LastIdHeld(h: seq<Event>, capacity: nat)
    requires capacity > 0
    ensures Last(h, capacity) == h[|h| - |Last(h, capacity)|..] && LastId(Last(h, capacity)) == LastId(h)
  {
  }

  lemma LimitSpelled(limit: int, capacity: nat)
    requires capacity > 0
    ensures EffectiveLimit(limit, capacity) == Min(if limit <= 0 then 100 else limit, capacity)
  {
  }

  lemma SuffixOfSuffix(h: seq<Event>, base: nat, start: nat)
    requires base + start <= |h|
    ensures h[base..][start..] == h[base + start..]
  {
  }

  lemma AnswerFrom(h: seq<Event>, capacity: nat, cursor: string, limit: int, from: nat)
    requires capacity > 0 && from <= |h|
    requires
      var held := Last(h, capacity);
      (if cursor == "" then held else held[StartAfter(held, cursor)..]) == h[from..]
    ensures Answer(h, capacity, cursor, limit) == (h[Max(from, |h| - EffectiveLimit(limit, capacity))..], LastId(h))
  {
    AnswerOf(h, capacity, cursor, limit, Last(h, capacity), h[from..]);
    LastIdHeld(h, capacity);
    LastOfSuffix(h, from, EffectiveLimit(limit, capacity));
  }

  lemma UnseenSpelled(history: seq<Event>, capacity: nat, cursor: string, base: nat, start: nat)
    requires capacity > 0 && base == Max(0, |history| - capacity)
    requires StartsAfterCursor(history[base..], cursor, start)
    ensures base + start <= |history|
    ensures
      var held := Last(history, capacity);
      (if cursor == "" then held else held[StartAfter(held, cursor)..]) == history[base + start..]
  {
    StartIsFirst(history[base..], cursor, start);
    SuffixOfSuffix(history, base, start);
    assert Last(history, capacity) == history[base..];
  }

  lemma LastIdSpelled(h: seq<Event>)
    ensures LastId(h) == if h == [] then "" else h[|h| - 1].id
  {
  }

  /** The events held start at `base`. A poll answers with the newest of those behind its cursor, at
      most min(limit, capacity) of them, the limit being 100 unless it is positive; and with the
      newest ID. */
  lemma AnswerSpelled(history: seq<Event>, capacity: nat, cursor: string, limit: int, base: nat, start: nat, most: nat)
    requires capacity > 0 && base == Max(0, |history| - capacity)
    requires StartsAfterCursor(history[base..], cursor, start)
    requires most == Min(if limit <= 0 then 100 else limit, capacity)
    ensures base + start <= |history|
    ensures Answer(history, capacity, cursor, limit)
      == (history[Max(base + start, |history| - most)..], if history == [] then "" else history[|history| - 1].id)
  {
    UnseenSpelled(history, capacity, cursor, base, start);
    LimitSpelled(limit, capacity);
    AnswerFrom(history, capacity, cursor, limit, base + start);
    LastIdSpelled(history);
  }

  lemma {:induction false} StartIsFirst(held: seq<Event>, cursor: string, start: nat)
    requires StartsAfterCursor(held, cursor, start)
    ensures cursor != "" ==> StartAfter(held, cursor) == start
    decreases |held|
  {
    if cursor != "" && held != [] && held[0].id != cursor {
      assert start > 0 ==> held[1..][start - 2].id == cursor;
      StartIsFirst(held[1..], cursor, if start == 0 then 0 else start - 1);
    }
  }

  // ----- the buffer -----

  class RingBuffer {
    const slots: array<Event>
    var length: nat
    var next: nat
    var full: bool
    ghost var history: seq<Event>

    ghost predicate Valid()
      reads this, slots
    {
      && slots.Length > 0 && length <= slots.Length
      && (full ==> length == slots.Length && next < slots.Length)
      && (!full ==> next == 0 && length == |history|)
      && Contents() == Last(history, slots.Length)
    }

    /** The events held, oldest first. */
    ghost function Contents(): seq<Event>
      requires slots.Length > 0 && length <= slots.Length && (full ==> length == slots.Length && next < slots.Length)
      reads this, slots
    {
      if full then slots[next..] + slots[..next] else slots[..length]
    }

    /** `newEventBuffer`. */
    constructor (capacity: int)
      ensures Valid() && fresh(slots) && history == []
      ensures slots.Length == if capacity <= 0 then 512 else capacity
    {
      slots := new Event[if capacity <= 0 then DEFAULT_CAPACITY else capacity](_ => BLANK);
      length, next, full, history := 0, 0, false, [];
    }

    /** `append`: fill the buffer first, then overwrite the oldest event. */
    method Append(event: Event)
      requires Valid()
      modifies this, slots
      ensures Valid() && history == old(history) + [event]
    {
      LastAppended(history, slots.Length, event);
      ghost var held, before := history, slots[..];
      history := history + [event];
      if length < slots.Length {
        slots[length] := event;
        length := length + 1;
        return;
      }
      assert before[next..] + before[..next] == Last(held, |before|) by {
        assert before[..next] == slots[..next] && before[next..] == slots[next..];
        assert !full ==> before[0..] + before[..0] == slots[..length];
      }
      WrappedAround(held, before, next, event, (next + 1) % slots.Length);
      slots[next] := event;
      assert slots[..] == before[next := event];
      next := (next + 1) % slots.Length;
      full := true;
      assert slots[..][..next] == slots[..next] && slots[..][next..] == slots[next..];
    }

    /** `orderedLocked`: a copy of the events, oldest first. */
    method Ordered() returns (events: seq<Event>)
      requires Valid()
      ensures events == Last(history, slots.Length)
    {
      if !full { return slots[..length]; }
      events := slots[next..] + slots[..next];
    }

    /** `since`. */
    method Since(cursor: string, limit: int) returns (events: seq<Event>, nextCursor: string)
      requires Valid()
      ensures (events, nextCursor) == Answer(history, slots.Length, cursor, limit)
    {
      var effective := if limit <= 0 then 100 else limit;
      if effective > slots.Length { effective := slots.Length; }
      var ordered := Ordered();
      if cursor == "" {
        AnswerOf(history, slots.Length, cursor, limit, ordered, ordered);
        return Last(ordered, effective), LastId(ordered);
      }
      var start := FindStart(ordered, cursor);
      AnswerOf(history, slots.Length, cursor, limit, ordered, ordered[start..]);
      events, nextCursor := Last(ordered[start..], effective), LastId(ordered);
    }
  }

  /** The scan of `since` for the event of the cursor. */
  method FindStart(ordered: seq<Event>, cursor: string) returns (start: nat)
    ensures start == StartAfter(ordered, cursor)
  {
    start := 0;
    var i := 0;
    while i < |ordered|
      invariant 0 <= i <= |ordered| && start == 0
      invariant forall k :: 0 <= k < i ==> ordered[k].id != cursor
    {
      if ordered[i].id == cursor {
        start := i + 1;
        break;
      }
      i := i + 1;
    }
    StartFound(ordered, cursor, i);
  }

  lemma {:induction false} StartFound(events: seq<Event>, id: string, i: nat)
    requires i <= |events| && forall k :: 0 <= k < i ==> events[k].id != id
    requires i < |events| ==> events[i].id == id
    ensures StartAfter(events, id) == if i < |events| then i + 1 else 0
  {
    if 0 < i < |events| {
      StartFound(events[1..], id, i - 1);
    }
  }
}
