/**
 A client that polls the event buffer with the cursor it got last: what it receives over a
 whole run of appended events and polls.
 */
module EventDelivery {
  import opened EventBuffer

  datatype Op = Arrive(event: Event) | Poll(limit: int)

  /** All events so far, the client's cursor, everything it received, and how many events had
      arrived at its last poll. */
  datatype State = State(history: seq<Event>, cursor: string, received: seq<Event>, polled: nat)

  const START := State([], "", [], 0)

  function Step(s: State, op: Op, capacity: nat): State
    requires capacity > 0
  {
    match op
    case Arrive(event) => s.(history := s.history + [event])
    case Poll(limit) =>
      var (events, cursor) := Answer(s.history, capacity, s.cursor, limit);
      State(s.history, cursor, s.received + events, |s.history|)
  }

  function Run(s: State, ops: seq<Op>, capacity: nat): State
    requires capacity > 0
    decreases ops
  {
    if ops == [] then s else Run(Step(s, ops[0], capacity), ops[1..], capacity)
  }

  /** The run on the real buffer is the run of the specification. */
  method RunClient(ops: seq<Op>, capacity: int) returns (received: seq<Event>, cursor: string)
    ensures
      var s := Run(START, ops, if capacity <= 0 then 512 else capacity);
      received == s.received && cursor == s.cursor
  {
    var buffer := new RingBuffer(capacity);
    received, cursor := [], "";
    ghost var polled: nat := 0;
    ghost var slots := buffer.slots.Length;
    for i := 0 to |ops|
      invariant buffer.Valid() && buffer.slots.Length == slots && fresh(buffer) && fresh(buffer.slots)
      invariant Run(START, ops, slots) == Run(State(buffer.history, cursor, received, polled), ops[i..], slots)
    {
      assert ops[i..][1..] == ops[i + 1..];
      match ops[i] {
        case Arrive(event) => buffer.Append(event);
        case Poll(limit) =>
          var events, next := buffer.Since(cursor, limit);
          received, cursor, polled := received + events, next, |buffer.history|;
      }
    }
  }

  // ----- delivery -----

  predicate Named(e: Event) { e.id != "" }

  predicate Differ(events: seq<Event>, i: nat, j: nat) {
    i < |events| && j < |events| ==> events[i].id != events[j].id
  }

  predicate DistinctIds(events: seq<Event>) {
    && (forall i :: 0 <= i < |events| ==> Named(events[i]))
    && (forall i: nat, j: nat :: i < j < |events| ==> Differ(events, i, j))
  }

  /** The events at increasing positions of the history. */
  function Pick(history: seq<Event>, positions: seq<nat>): seq<Event>
    requires forall i :: 0 <= i < |positions| ==> positions[i] < |history|
  {
    seq(|positions|, i requires 0 <= i < |positions| => history[positions[i]])
  }

  predicate Increasing(positions: seq<nat>) { forall i, j :: 0 <= i < j < |positions| ==> positions[i] < positions[j] }

  predicate Below(positions: seq<nat>, bound: nat) { forall i :: 0 <= i < |positions| ==> positions[i] < bound }

  /** The cursor is the ID of the newest event of the last poll. */
  predicate CursorOk(s: State) {
    s.polled <= |s.history| && s.cursor == LastId(s.history[..s.polled])
  }

  /** Everything received is an increasing selection of the events polled so far. */
  ghost predicate InOrder(s: State, positions: seq<nat>) {
    && s.polled <= |s.history| && Increasing(positions) && Below(positions, s.polled)
    && s.received == Pick(s.history, positions)
  }

  /** Where the answer to a poll starts in the history: after everything polled before, and at
      most min(limit, capacity) from the end; a limit that is not positive stands for 100. */
  function AnswerStart(s: State, limit: int, capacity: nat): (start: nat)
    requires capacity > 0 && s.polled <= |s.history|
    ensures s.polled <= start <= |s.history|
  {
    Max(s.polled, |s.history| - Min(if limit <= 0 then 100 else limit, capacity))
  }

  lemma {:induction false} StartAfterUnique(events: seq<Event>, id: string, i: nat)
    requires i < |events| && events[i].id == id
    requires forall k :: 0 <= k < i ==> events[k].id != id
    ensures StartAfter(events, id) == i + 1
  {
    if i > 0 {
      assert events[1..][i - 1].id == id;
      StartAfterUnique(events[1..], id, i - 1);
    }
  }

  lemma {:induction false} StartAfterMissing(events: seq<Event>, id: string)
    requires forall i :: 0 <= i < |events| ==> events[i].id != id
    ensures StartAfter(events, id) == 0
  {
  }

  /** The held events not seen before: from the cursor on if it is still held, else all. */
  lemma UnseenStart(h: seq<Event>, capacity: nat, polled: nat)
    requires 0 < polled <= |h| && DistinctIds(h)
    ensures
      var held := Last(h, capacity);
      held[StartAfter(held, h[polled - 1].id)..] == h[Max(polled, |h| - |held|)..]
  {
    var held, at := Last(h, capacity), polled - 1;
    var base := |h| - |held|;
    assert held == h[base..];
    forall k: nat | k < |held| && base + k != at ensures held[k].id != h[at].id {
      assert held[k] == h[base + k];
      assert if base + k < at then Differ(h, base + k, at) else Differ(h, at, base + k);
    }
    if at >= base {
      StartAfterUnique(held, h[at].id, at - base);
    } else {
      StartAfterMissing(held, h[at].id);
    }
  }

  /** Where the events a poll has to choose from begin. */
  lemma UnseenOfCursor(s: State, capacity: nat)
    requires capacity > 0 && CursorOk(s) && DistinctIds(s.history)
    ensures
      var held := Last(s.history, capacity);
      (if s.cursor == "" then held else held[StartAfter(held, s.cursor)..])
        == s.history[Max(s.polled, |s.history| - |held|)..]
  {
    LastIdHeld(s.history, capacity);
    if s.polled > 0 {
      assert s.cursor == s.history[s.polled - 1].id;
      UnseenStart(s.history, capacity, s.polled);
    } else {
      assert s.history[..s.polled] == [];
    }
  }

  /** With distinct IDs a poll answers with exactly the events from `AnswerStart` on, also when
      the event of its cursor has been overwritten in the meantime: the newest of the pending
      events, as many as limit and capacity allow. */
  lemma PollAnswer(s: State, limit: int, capacity: nat)
    requires capacity > 0 && CursorOk(s) && DistinctIds(s.history)
    ensures Answer(s.history, capacity, s.cursor, limit)
      == (s.history[AnswerStart(s, limit, capacity)..], LastId(s.history))
  {
    var from := Max(s.polled, |s.history| - |Last(s.history, capacity)|);
    assert from <= |s.history|;
    UnseenOfCursor(s, capacity);
    AnswerFrom(s.history, capacity, s.cursor, limit, from);
    StartOfAnswer(s, limit, capacity, from);
  }

  /** How many events a poll brings: the pending ones, as far as limit and capacity allow. */
  lemma PollLength(s: State, limit: int, capacity: nat)
    requires capacity > 0 && CursorOk(s) && DistinctIds(s.history)
    ensures |Answer(s.history, capacity, s.cursor, limit).0|
      == Min(|s.history| - s.polled, Min(if limit <= 0 then 100 else limit, capacity))
  {
    PollAnswer(s, limit, capacity);
  }

  lemma StartOfAnswer(s: State, limit: int, capacity: nat, from: nat)
    requires capacity > 0 && s.polled <= |s.history|
    requires from == Max(s.polled, |s.history| - |Last(s.history, capacity)|)
    ensures Max(from, |s.history| - EffectiveLimit(limit, capacity)) == AnswerStart(s, limit, capacity)
  {
  }

  /** The state after a poll. */
  lemma AfterPoll(s: State, limit: int, capacity: nat)
    requires capacity > 0 && CursorOk(s) && DistinctIds(s.history)
    ensures Step(s, Poll(limit), capacity)
      == State(s.history, LastId(s.history), s.received + s.history[AnswerStart(s, limit, capacity)..], |s.history|)
    ensures CursorOk(Step(s, Poll(limit), capacity))
  {
    PollAnswer(s, limit, capacity);
    assert s.history[..|s.history|] == s.history;
  }

  lemma AfterArrival(s: State, event: Event, capacity: nat)
    requires capacity > 0 && CursorOk(s)
    ensures CursorOk(Step(s, Arrive(event), capacity))
    ensures (s.history + [event])[..s.polled] == s.history[..s.polled]
  {
  }

  /** What a run has delivered, and that its cursor is where it should be. */
  ghost predicate Delivered(s: State, positions: seq<nat>) { CursorOk(s) && InOrder(s, positions) }

  function Range(from: nat, to: nat): (r: seq<nat>)
    requires from <= to
  {
    seq(to - from, i requires 0 <= i => from + i)
  }

  lemma PickAppend(h: seq<Event>, positions: seq<nat>, start: nat)
    requires Below(positions, start) && start <= |h|
    ensures Below(positions + Range(start, |h|), |h|)
    ensures Pick(h, positions + Range(start, |h|)) == Pick(h, positions) + h[start..]
    ensures Increasing(positions) ==> Increasing(positions + Range(start, |h|))
  {
  }

  lemma PickPrefix(h: seq<Event>, longer: seq<Event>, positions: seq<nat>)
    requires h <= longer && Below(positions, |h|)
    ensures Pick(longer, positions) == Pick(h, positions)
  {
  }

  lemma StepDelivers(s: State, op: Op, capacity: nat, positions: seq<nat>) returns (now: seq<nat>)
    requires capacity > 0 && Delivered(s, positions) && DistinctIds(s.history)
    ensures Delivered(Step(s, op, capacity), now)
  {
    match op {
      case Arrive(event) =>
        now := positions;
        AfterArrival(s, event, capacity);
        PickPrefix(s.history, s.history + [event], positions);
      case Poll(limit) =>
        AfterPoll(s, limit, capacity);
        var start := AnswerStart(s, limit, capacity);
        now := positions + Range(start, |s.history|);
        PickAppend(s.history, positions, start);
    }
  }

  /** Over every run with distinct IDs the client receives every event at most once and in
      the order of arrival. */
  lemma {:induction false} AtMostOnceInOrder(s: State, ops: seq<Op>, capacity: nat, positions: seq<nat>)
    requires capacity > 0 && Delivered(s, positions) && DistinctIds(Run(s, ops, capacity).history)
    ensures exists now :: Delivered(Run(s, ops, capacity), now)
    decreases ops
  {
    if ops != [] {
      HistoryGrows(s, ops, capacity);
      HistoryGrows(Step(s, ops[0], capacity), ops[1..], capacity);
      PrefixDistinct(s.history, Run(s, ops, capacity).history);
      var now := StepDelivers(s, ops[0], capacity, positions);
      AtMostOnceInOrder(Step(s, ops[0], capacity), ops[1..], capacity, now);
    }
  }

  lemma {:induction false} HistoryGrows(s: State, ops: seq<Op>, capacity: nat)
    requires capacity > 0
    ensures s.history <= Run(s, ops, capacity).history
    decreases ops
  {
    if ops != [] {
      HistoryGrows(Step(s, ops[0], capacity), ops[1..], capacity);
    }
  }

  lemma PrefixDistinct(a: seq<Event>, b: seq<Event>)
    requires a <= b && DistinctIds(b)
    ensures DistinctIds(a)
  {
    forall i: nat, j: nat | i < j < |a| ensures Differ(a, i, j) {
      assert Differ(b, i, j);
    }
  }

  // ----- exactly once -----

  /** At every poll at most min(limit, capacity) events are pending. */
  ghost predicate KeepsUp(s: State, ops: seq<Op>, capacity: nat)
    requires capacity > 0
    decreases ops
  {
    ops == []
    || ((ops[0].Poll? ==>
           |s.history| - s.polled <= Min(if ops[0].limit <= 0 then 100 else ops[0].limit, capacity))
        && KeepsUp(Step(s, ops[0], capacity), ops[1..], capacity))
  }

  /** The client has received all events up to its last poll. */
  predicate Complete(s: State) { s.polled <= |s.history| && s.received == s.history[..s.polled] }

  lemma {:induction false} ReceivedAtMostPolled(s: State, ops: seq<Op>, capacity: nat)
    requires capacity > 0 && CursorOk(s) && DistinctIds(Run(s, ops, capacity).history) && |s.received| < s.polled
    ensures var end := Run(s, ops, capacity); |end.received| < end.polled
    decreases ops
  {
    if ops != [] {
      HistoryGrows(s, ops, capacity);
      PrefixDistinct(s.history, Run(s, ops, capacity).history);
      match ops[0] {
        case Poll(limit) => AfterPoll(s, limit, capacity);
        case Arrive(event) => AfterArrival(s, event, capacity);
      }
      ReceivedAtMostPolled(Step(s, ops[0], capacity), ops[1..], capacity);
    }
  }

  lemma CompleteAfterPoll(s: State, limit: int, capacity: nat)
    requires capacity > 0 && CursorOk(s) && DistinctIds(s.history) && Complete(s)
    ensures
      var next := Step(s, Poll(limit), capacity);
      && CursorOk(next) && next.history == s.history
      && if AnswerStart(s, limit, capacity) == s.polled then Complete(next) else |next.received| < next.polled
  {
    AfterPoll(s, limit, capacity);
    CutAndRest(s.history, s.polled, AnswerStart(s, limit, capacity));
  }

  lemma CutAndRest(h: seq<Event>, k: nat, start: nat)
    requires k <= start <= |h|
    ensures h[..|h|] == h
    ensures if start == k then h[..k] + h[start..] == h else |h[..k] + h[start..]| < |h|
  {
  }

  /** A client receives every event exactly once if and only if it keeps up at every poll: an
      event once skipped is never delivered later. */
  lemma {:induction false} ExactlyOnceIffKeepsUp(s: State, ops: seq<Op>, capacity: nat)
    requires capacity > 0 && CursorOk(s) && Complete(s) && DistinctIds(Run(s, ops, capacity).history)
    ensures Complete(Run(s, ops, capacity)) <==> KeepsUp(s, ops, capacity)
    decreases ops
  {
    if ops != [] {
      HistoryGrows(s, ops, capacity);
      PrefixDistinct(s.history, Run(s, ops, capacity).history);
      var next := Step(s, ops[0], capacity);
      match ops[0] {
        case Poll(limit) =>
          CompleteAfterPoll(s, limit, capacity);
          if AnswerStart(s, limit, capacity) == s.polled {
            ExactlyOnceIffKeepsUp(next, ops[1..], capacity);
          } else {
            ReceivedAtMostPolled(next, ops[1..], capacity);
          }
        case Arrive(event) =>
          AfterArrival(s, event, capacity);
          ExactlyOnceIffKeepsUp(next, ops[1..], capacity);
      }
    }
  }

  /** Both results for a run from the beginning. */
  lemma RunDelivers(ops: seq<Op>, capacity: nat)
    requires capacity > 0 && DistinctIds(Run(START, ops, capacity).history)
    ensures exists positions :: Delivered(Run(START, ops, capacity), positions)
    ensures Complete(Run(START, ops, capacity)) <==> KeepsUp(START, ops, capacity)
  {
    assert START.history[..0] == [];
    assert Pick(START.history, []) == [];
    assert Delivered(START, []);
    AtMostOnceInOrder(START, ops, capacity, []);
    ExactlyOnceIffKeepsUp(START, ops, capacity);
  }

  lemma TwoThenPoll(a: Event, b: Event)
    ensures Run(START, [Arrive(a), Arrive(b), Poll(1)], 2) == State([a, b], b.id, [b], 2)
  {
    var ops := [Arrive(a), Arrive(b), Poll(1)];
    var s1, s2 := Step(START, ops[0], 2), State([a, b], "", [], 0);
    assert s1.history == [a] && Step(s1, ops[1], 2) == s2;
    assert Last([a, b], 2) == [a, b] && Last([a, b], 1) == [b];
    assert Answer([a, b], 2, "", 1) == ([b], b.id);
    assert Step(s2, ops[2], 2) == State([a, b], b.id, [b], 2);
    RunThree(START, ops[0], ops[1], ops[2], 2);
  }

  lemma RunThree(s: State, a: Op, b: Op, c: Op, capacity: nat)
    requires capacity > 0
    ensures Run(s, [a, b, c], capacity) == Step(Step(Step(s, a, capacity), b, capacity), c, capacity)
  {
    var ops, s1 := [a, b, c], Step(s, a, capacity);
    var s2 := Step(s1, b, capacity);
    assert ops[1..] == [b, c] && [b, c][1..] == [c] && [c][1..] == [];
    assert Run(s2, [c], capacity) == Run(Step(s2, c, capacity), [], capacity);
    assert Run(s1, [b, c], capacity) == Run(s2, [c], capacity);
  }

  /** Two events between polls with a limit of one: the first is never received. */
  lemma LaggingClientLosesAnEvent()
    ensures
      var a, b := Event("1", "u", "active", "running"), Event("2", "u", "failed", "failed");
      var end := Run(START, [Arrive(a), Arrive(b), Poll(1)], 2);
      DistinctIds(end.history) && end.history == [a, b] && end.received == [b] && !Complete(end)
  {
    var a, b := Event("1", "u", "active", "running"), Event("2", "u", "failed", "failed");
    TwoThenPoll(a, b);
    assert a.id[0] == '1' && b.id[0] == '2';
    assert Named(a) && Named(b) && Differ([a, b], 0, 1);
    assert [a, b][..2] == [a, b];
  }
}
