/**
 Decoding of possibly compressed domain names (`decode_name`; section 4.1.4 of RFC 1035).

 A name is a walk through the packet: a label leads to the position behind it, a pointer
 leads to its target, a zero byte ends the name. The reference semantics below speaks of
 complete walks only; it knows neither the jump budget nor the mutable cursor of the code.
 */
module DomainName {
  import opened Wrappers
  import opened Bytes
  import opened Text
  import opened Counting

  const DOT: byte := 46

  datatype NameError = TruncatedName | TruncatedPointer | PointerLoop | InvalidLabel | InvalidLabelData

  /** What a single position of the packet says. */
  datatype Step =
    | End
    | Pointer(target: nat)
    | Label(text: seq<byte>, next: nat)
    | Malformed(error: NameError)
  {
    predicate Stops() { End? || Malformed? }
    function Next(): nat requires !Stops() { if Pointer? then target else next }
  }

  /** The three kinds of length byte: `& 0xc0` selects the top two bits, so it is 0xc0 from
      192 on, and `& 0x3f` is the remainder modulo 64. */
  function StepAt(packet: seq<byte>, at: nat): (s: Step)
    ensures s.Label? ==> at < s.next <= |packet|
    ensures s.Pointer? ==> at + 1 < |packet|
  {
    if at >= |packet| then Malformed(TruncatedName)
    else
      var length: nat := packet[at];
      if length == 0 then End
      else if length >= 192 then
        if at + 1 >= |packet| then Malformed(TruncatedPointer)
        else Pointer(length % 64 * 256 + packet[at + 1])
      else if length >= 64 then Malformed(InvalidLabel)
      else if at + 1 + length > |packet| || !ValidUtf8(packet[at + 1..at + 1 + length]) then Malformed(InvalidLabelData)
      else Label(packet[at + 1..at + 1 + length], at + 1 + length)
  }

  // ----- reference semantics: walks -----

  /** Position `i + 1` of the walk is where the packet leads from position `i`. */
  ghost predicate Follows(packet: seq<byte>, walk: seq<nat>, i: nat)
    requires i + 1 < |walk|
  {
    !StepAt(packet, walk[i]).Stops() && walk[i + 1] == StepAt(packet, walk[i]).Next()
  }

  ghost predicate IsWalk(packet: seq<byte>, start: nat, walk: seq<nat>) {
    |walk| > 0 && walk[0] == start && forall i :: 0 <= i < |walk| - 1 ==> Follows(packet, walk, i)
  }

  ghost predicate IsCompleteWalk(packet: seq<byte>, start: nat, walk: seq<nat>) {
    IsWalk(packet, start, walk) && StepAt(packet, walk[|walk| - 1]).Stops()
  }

  /** The labels met on the way. */
  ghost function LabelsOf(packet: seq<byte>, walk: seq<nat>): (labels: seq<seq<byte>>) {
    if walk == [] then []
    else
      var last := StepAt(packet, walk[|walk| - 1]);
      LabelsOf(packet, walk[..|walk| - 1]) + if last.Label? then [last.text] else []
  }

  /** Where the record continues: behind the first pointer or behind the final zero byte. */
  ghost function WireEnd(packet: seq<byte>, start: nat): (end: nat)
    ensures end >= start
    decreases |packet| - start
  {
    match StepAt(packet, start)
    case End => start + 1
    case Pointer(_) => start + 2
    case Label(_, next) => WireEnd(packet, next)
    case Malformed(_) => start
  }

  /** The meaning of the name at `start`: the joined labels if some complete walk ends at a
      zero byte, the defect if it ends at one, and a pointer loop if no walk is complete. */
  ghost function NameAt(packet: seq<byte>, start: nat): (r: Result<seq<byte>, NameError>) {
    if walk :| IsCompleteWalk(packet, start, walk) then NameOfWalk(packet, walk) else Err(PointerLoop)
  }

  ghost function NameOfWalk(packet: seq<byte>, walk: seq<nat>): Result<seq<byte>, NameError>
    requires walk != [] && StepAt(packet, walk[|walk| - 1]).Stops()
  {
    var last := StepAt(packet, walk[|walk| - 1]);
    if last.End? then Ok(Join(LabelsOf(packet, walk), DOT)) else Err(last.error)
  }

  // ----- walks are deterministic -----

  lemma {:induction false} ShorterWalkIsPrefix(packet: seq<byte>, start: nat, w: seq<nat>, v: seq<nat>)
    requires IsWalk(packet, start, w) && IsWalk(packet, start, v) && |w| <= |v|
    ensures w == v[..|w|]
  {
    if |w| > 1 {
      var shorter := w[..|w| - 1];
      assert IsWalk(packet, start, shorter) by {
        forall i | 0 <= i < |shorter| - 1 ensures Follows(packet, shorter, i) {
          assert Follows(packet, w, i);
        }
      }
      ShorterWalkIsPrefix(packet, start, shorter, v);
      var last := |w| - 2;
      assert Follows(packet, w, last) && Follows(packet, v, last);
      assert w[last] == shorter[last] == v[last];
      assert w == shorter + [w[last + 1]];
    }
  }

  lemma CompleteWalkIsLongest(packet: seq<byte>, start: nat, complete: seq<nat>, w: seq<nat>)
    requires IsCompleteWalk(packet, start, complete) && IsWalk(packet, start, w)
    ensures |w| <= |complete| && w == complete[..|w|]
  {
    if |w| > |complete| {
      assert Follows(packet, w, |complete| - 1);
      ShorterWalkIsPrefix(packet, start, complete, w);
    } else {
      ShorterWalkIsPrefix(packet, start, w, complete);
    }
  }

  /** `NameAt` does not depend on which complete walk is looked at: there is only one. */
  lemma NameAtOfWalk(packet: seq<byte>, start: nat, walk: seq<nat>)
    requires IsCompleteWalk(packet, start, walk)
    ensures NameAt(packet, start) == NameOfWalk(packet, walk)
  {
    forall other | IsCompleteWalk(packet, start, other) ensures other == walk {
      CompleteWalkIsLongest(packet, start, walk, other);
      CompleteWalkIsLongest(packet, start, other, walk);
    }
  }

  // ----- the pigeonhole argument -----

  lemma {:induction false} RepeatShifts(packet: seq<byte>, start: nat, w: seq<nat>, i: nat, j: nat, k: nat)
    requires IsWalk(packet, start, w) && i < j && j + k < |w| && w[i] == w[j]
    ensures w[i + k] == w[j + k]
  {
    if k > 0 {
      RepeatShifts(packet, start, w, i, j, k - 1);
      var a, b := i + (k - 1), j + (k - 1);
      assert Follows(packet, w, a) && Follows(packet, w, b);
    }
  }

  /** A walk that ends never visits a position twice. */
  lemma CompleteWalkHasNoRepeat(packet: seq<byte>, start: nat, w: seq<nat>, i: nat, j: nat)
    requires IsCompleteWalk(packet, start, w) && i < j < |w|
    ensures w[i] != w[j]
  {
    if w[i] == w[j] {
      var k := |w| - 1 - j;
      assert Follows(packet, w, i + k);
      RepeatShifts(packet, start, w, i, j, k);
    }
  }

  /** Positions of `walk` at which a pointer stands. */
  ghost function PointerPositions(packet: seq<byte>, walk: seq<nat>): set<nat> {
    set i | 0 <= i < |walk| && StepAt(packet, walk[i]).Pointer? :: walk[i]
  }

  function PointerCount(packet: seq<byte>, walk: seq<nat>): nat {
    if walk == [] then 0
    else PointerCount(packet, walk[..|walk| - 1]) + if StepAt(packet, walk[|walk| - 1]).Pointer? then 1 else 0
  }

  lemma {:induction false} DistinctPointersCounted(packet: seq<byte>, walk: seq<nat>)
    requires forall i, j :: 0 <= i < j < |walk| ==> walk[i] != walk[j]
    ensures |PointerPositions(packet, walk)| == PointerCount(packet, walk)
  {
    if walk != [] {
      var front, last := walk[..|walk| - 1], walk[|walk| - 1];
      DistinctPointersCounted(packet, front);
      assert walk == front + [last];
      OneMorePosition(packet, front, last);
      assert last !in PointerPositions(packet, front);
    }
  }

  lemma OneMorePosition(packet: seq<byte>, front: seq<nat>, last: nat)
    ensures PointerPositions(packet, front + [last])
      == PointerPositions(packet, front) + if StepAt(packet, last).Pointer? then {last} else {}
  {
    var walk := front + [last];
    forall at | at in PointerPositions(packet, front) ensures at in walk {
      var i :| 0 <= i < |front| && front[i] == at;
      assert walk[i] == at;
    }
    assert walk[|front|] == last;
  }

  /** The jump budget of `decode_name` only stops names that never end: once a walk took
      more jumps than the packet has bytes, no complete walk exists. */
  lemma BudgetRejectsOnlyEndlessNames(packet: seq<byte>, start: nat, walk: seq<nat>)
    requires IsWalk(packet, start, walk)
    requires PointerCount(packet, walk[..|walk| - 1]) > |packet|
    ensures !exists complete :: IsCompleteWalk(packet, start, complete)
  {
    forall complete | IsCompleteWalk(packet, start, complete) ensures false {
      CompleteWalkIsLongest(packet, start, complete, walk);
      var front := walk[..|walk| - 1];
      forall i, j | 0 <= i < j < |front| ensures front[i] != front[j] {
        CompleteWalkHasNoRepeat(packet, start, complete, i, j);
      }
      DistinctPointersCounted(packet, front);
      BelowBound(PointerPositions(packet, front), |packet|);
    }
  }

  // ----- what names are made of -----

  predicate LabelText(text: seq<byte>) { ValidUtf8(text) && 0 < |text| <= 63 }

  lemma StepText(packet: seq<byte>, at: nat)
    ensures StepAt(packet, at).Label? ==> LabelText(StepAt(packet, at).text)
  {
  }

  lemma {:induction false} WalkTexts(packet: seq<byte>, walk: seq<nat>)
    ensures forall i :: 0 <= i < |LabelsOf(packet, walk)| ==> LabelText(LabelsOf(packet, walk)[i])
    decreases walk
  {
    if walk != [] {
      WalkTexts(packet, walk[..|walk| - 1]);
      StepText(packet, walk[|walk| - 1]);
    }
  }

  /** A decoded name is made of labels of 1 to 63 bytes, each UTF-8, joined by dots. */
  lemma DecodedLabels(packet: seq<byte>, start: nat) returns (labels: seq<seq<byte>>)
    requires NameAt(packet, start).Ok?
    ensures NameAt(packet, start) == Ok(Join(labels, DOT))
    ensures forall i :: 0 <= i < |labels| ==> LabelText(labels[i])
  {
    var walk :| IsCompleteWalk(packet, start, walk);
    WalkStops(packet, start, walk);
    labels := LabelsOf(packet, walk[..|walk| - 1]);
    WalkTexts(packet, walk[..|walk| - 1]);
  }

  // ----- the meaning, byte by byte -----

  lemma {:induction false} LabelsOfCons(packet: seq<byte>, first: nat, walk: seq<nat>)
    ensures
      var step := StepAt(packet, first);
      LabelsOf(packet, [first] + walk) == (if step.Label? then [step.text] else []) + LabelsOf(packet, walk)
  {
    if walk != [] {
      var whole := [first] + walk;
      assert whole[..|whole| - 1] == [first] + walk[..|walk| - 1];
      LabelsOfCons(packet, first, walk[..|walk| - 1]);
    } else {
      assert ([first] + walk)[..0] == [];
    }
  }

  lemma WalkFrom(packet: seq<byte>, first: nat, walk: seq<nat>)
    requires !StepAt(packet, first).Stops() && IsCompleteWalk(packet, StepAt(packet, first).Next(), walk)
    ensures IsCompleteWalk(packet, first, [first] + walk)
  {
    var whole := [first] + walk;
    forall i | 0 <= i < |whole| - 1 ensures Follows(packet, whole, i) {
      assert i > 0 ==> Follows(packet, walk, i - 1);
    }
  }

  lemma TailOfWalk(packet: seq<byte>, at: nat, walk: seq<nat>)
    requires !StepAt(packet, at).Stops() && IsCompleteWalk(packet, at, walk)
    ensures |walk| > 1 && IsCompleteWalk(packet, StepAt(packet, at).Next(), walk[1..])
    ensures walk == [at] + walk[1..]
  {
    assert |walk| > 1 && Follows(packet, walk, 0);
    var tail := walk[1..];
    forall i | 0 <= i < |tail| - 1 ensures Follows(packet, tail, i) {
      assert Follows(packet, walk, i + 1);
    }
  }

  /** A label in front of a name. */
  function Above(text: seq<byte>, rest: Result<seq<byte>, NameError>): Result<seq<byte>, NameError> {
    if rest.Err? then rest else Ok(if rest.value == [] then text else text + [DOT] + rest.value)
  }

  lemma JoinedLabel(packet: seq<byte>, walk: seq<nat>, text: seq<byte>)
    ensures
      var labels := LabelsOf(packet, walk);
      Join([text] + labels, DOT) == if Join(labels, DOT) == [] then text else text + [DOT] + Join(labels, DOT)
  {
    var labels := LabelsOf(packet, walk);
    WalkTexts(packet, walk);
    if labels != [] {
      assert LabelText(labels[0]);
      assert ([text] + labels)[1..] == labels;
    }
  }

  /** One step of a complete walk, as an equation between names. */
  lemma NameOfStep(packet: seq<byte>, at: nat, tail: seq<nat>)
    requires !StepAt(packet, at).Stops() && IsCompleteWalk(packet, StepAt(packet, at).Next(), tail)
    ensures
      var step, rest := StepAt(packet, at), NameAt(packet, StepAt(packet, at).Next());
      NameAt(packet, at) == if step.Label? then Above(step.text, rest) else rest
  {
    var step := StepAt(packet, at);
    WalkFrom(packet, at, tail);
    LabelsOfCons(packet, at, tail);
    NameAtOfWalk(packet, at, [at] + tail);
    NameAtOfWalk(packet, step.Next(), tail);
    assert [] + LabelsOf(packet, tail) == LabelsOf(packet, tail);
    if step.Label? {
      JoinedLabel(packet, tail, step.text);
    }
  }

  lemma EndlessStep(packet: seq<byte>, at: nat)
    requires !StepAt(packet, at).Stops() && !exists walk :: IsCompleteWalk(packet, at, walk)
    ensures NameAt(packet, at) == Err(PointerLoop) == NameAt(packet, StepAt(packet, at).Next())
  {
    forall tail | IsCompleteWalk(packet, StepAt(packet, at).Next(), tail) ensures false {
      WalkFrom(packet, at, tail);
    }
  }

  lemma NameStep(packet: seq<byte>, at: nat)
    ensures
      match StepAt(packet, at)
      case End => NameAt(packet, at) == Ok([])
      case Malformed(error) => NameAt(packet, at) == Err(error)
      case Pointer(target) => NameAt(packet, at) == NameAt(packet, target)
      case Label(text, next) => NameAt(packet, at) == Above(text, NameAt(packet, next))
  {
    if StepAt(packet, at).Stops() {
      var walk := [at];
      assert IsCompleteWalk(packet, at, walk) && walk[..0] == [];
      WalkStops(packet, at, walk);
    } else if walk :| IsCompleteWalk(packet, at, walk) {
      TailOfWalk(packet, at, walk);
      NameOfStep(packet, at, walk[1..]);
    } else {
      EndlessStep(packet, at);
    }
  }

  /** What the bytes at an offset say about the name there: every case of section 4.1.4 of
      RFC 1035, a pointer being the 16 bits 0xc000 + target. */
  lemma NameByBytes(packet: seq<byte>, at: nat, target: nat)
    requires target < 0x4000
    ensures at >= |packet| ==> NameAt(packet, at) == Err(TruncatedName)
    ensures at < |packet| && packet[at] == 0 ==> NameAt(packet, at) == Ok([]) && WireEnd(packet, at) == at + 1
    ensures at < |packet| && 64 <= packet[at] < 192 ==> NameAt(packet, at) == Err(InvalidLabel)
    ensures at + 1 == |packet| && packet[at] >= 192 ==> NameAt(packet, at) == Err(TruncatedPointer)
    ensures at + 2 <= |packet| && packet[at..at + 2] == U16(0xc000 + target) ==>
      NameAt(packet, at) == NameAt(packet, target) && WireEnd(packet, at) == at + 2
    ensures at < |packet| && 0 < packet[at] < 64 ==>
      var next := at + 1 + packet[at];
      if next > |packet| || !ValidUtf8(packet[at + 1..next]) then NameAt(packet, at) == Err(InvalidLabelData)
      else NameAt(packet, at) == Above(packet[at + 1..next], NameAt(packet, next))
           && WireEnd(packet, at) == WireEnd(packet, next)
  {
    NameStops(packet, at);
    if at < |packet| && 0 < packet[at] < 64 {
      LabelLeads(packet, at, packet[at]);
    }
    if at + 2 <= |packet| && packet[at..at + 2] == U16(0xc000 + target) {
      PointerLeads(packet, at, target);
    }
  }

  lemma NameStops(packet: seq<byte>, at: nat)
    ensures at >= |packet| ==> NameAt(packet, at) == Err(TruncatedName)
    ensures at < |packet| && packet[at] == 0 ==> NameAt(packet, at) == Ok([]) && WireEnd(packet, at) == at + 1
    ensures at < |packet| && 64 <= packet[at] < 192 ==> NameAt(packet, at) == Err(InvalidLabel)
    ensures at + 1 == |packet| && packet[at] >= 192 ==> NameAt(packet, at) == Err(TruncatedPointer)
  {
    NameStep(packet, at);
    WireStep(packet, at);
  }

  lemma LabelLeads(packet: seq<byte>, at: nat, length: nat)
    requires at < |packet| && length == packet[at] as int && 0 < length < 64
    ensures
      var next := at + 1 + length;
      if next > |packet| || !ValidUtf8(packet[at + 1..next]) then NameAt(packet, at) == Err(InvalidLabelData)
      else NameAt(packet, at) == Above(packet[at + 1..next], NameAt(packet, next))
           && WireEnd(packet, at) == WireEnd(packet, next)
  {
    NameStep(packet, at);
    WireStep(packet, at);
  }

  lemma PointerLeads(packet: seq<byte>, at: nat, target: nat)
    requires target < 0x4000 && at + 2 <= |packet| && packet[at..at + 2] == U16(0xc000 + target)
    ensures NameAt(packet, at) == NameAt(packet, target) && WireEnd(packet, at) == at + 2
  {
    PointerBytes(packet, at, target);
    NameStep(packet, at);
    WireStep(packet, at);
  }

  lemma PointerBytes(packet: seq<byte>, at: nat, target: nat)
    requires target < 0x4000 && at + 2 <= |packet| && packet[at..at + 2] == U16(0xc000 + target)
    ensures StepAt(packet, at) == Pointer(target)
  {
    var two := packet[at..at + 2];
    assert packet[at] == two[0] == 192 + target / 256 && packet[at + 1] == two[1] == target % 256;
  }

  // ----- the code -----

  lemma WalkStops(packet: seq<byte>, start: nat, walk: seq<nat>)
    requires IsCompleteWalk(packet, start, walk)
    ensures
      var step := StepAt(packet, walk[|walk| - 1]);
      NameAt(packet, start)
        == if step.End? then Ok(Join(LabelsOf(packet, walk[..|walk| - 1]), DOT)) else Err(step.error)
  {
    NameAtOfWalk(packet, start, walk);
    var labels := LabelsOf(packet, walk[..|walk| - 1]);
    assert labels + [] == labels;
  }

  lemma WalkGrows(packet: seq<byte>, start: nat, walk: seq<nat>, longer: seq<nat>)
    requires IsWalk(packet, start, walk) && !StepAt(packet, walk[|walk| - 1]).Stops()
    requires longer == walk + [StepAt(packet, walk[|walk| - 1]).Next()]
    ensures IsWalk(packet, start, longer) && longer[..|longer| - 1] == walk
    ensures
      var step, front := StepAt(packet, walk[|walk| - 1]), walk[..|walk| - 1];
      && LabelsOf(packet, walk) == LabelsOf(packet, front) + (if step.Label? then [step.text] else [])
      && PointerCount(packet, walk) == PointerCount(packet, front) + if step.Pointer? then 1 else 0
  {
    forall i | 0 <= i < |longer| - 1 ensures Follows(packet, longer, i) {
      assert i < |walk| - 1 ==> Follows(packet, walk, i);
    }
  }

  /** The loop is at `cursor` after the steps of `walk`. */
  ghost predicate Reached(packet: seq<byte>, start: nat, walk: seq<nat>, cursor: nat, labels: seq<seq<byte>>,
                          jumps: nat) {
    && IsWalk(packet, start, walk) && walk[|walk| - 1] == cursor
    && labels == LabelsOf(packet, walk[..|walk| - 1]) && jumps == PointerCount(packet, walk[..|walk| - 1])
  }

  lemma ReachedEnd(packet: seq<byte>, start: nat, walk: seq<nat>, cursor: nat, labels: seq<seq<byte>>, jumps: nat)
    requires Reached(packet, start, walk, cursor, labels, jumps) && StepAt(packet, cursor).Stops()
    ensures NameAt(packet, start)
      == if StepAt(packet, cursor).End? then Ok(Join(labels, DOT)) else Err(StepAt(packet, cursor).error)
  {
    WalkStops(packet, start, walk);
  }

  lemma ReachedNext(packet: seq<byte>, start: nat, walk: seq<nat>, cursor: nat, labels: seq<seq<byte>>, jumps: nat)
    requires Reached(packet, start, walk, cursor, labels, jumps) && !StepAt(packet, cursor).Stops()
    ensures
      var step := StepAt(packet, cursor);
      Reached(packet, start, walk + [step.Next()], step.Next(), labels + (if step.Label? then [step.text] else []),
              jumps + if step.Pointer? then 1 else 0)
  {
    WalkGrows(packet, start, walk, walk + [StepAt(packet, cursor).Next()]);
  }

  lemma BudgetSpent(packet: seq<byte>, start: nat, walk: seq<nat>, cursor: nat, labels: seq<seq<byte>>, jumps: nat)
    requires Reached(packet, start, walk, cursor, labels, jumps) && jumps > |packet|
    ensures NameAt(packet, start) == Err(PointerLoop)
  {
    BudgetRejectsOnlyEndlessNames(packet, start, walk);
  }

  /** The end of the name as written, step by step. */
  lemma WireStep(packet: seq<byte>, cursor: nat)
    ensures
      match StepAt(packet, cursor)
      case End => WireEnd(packet, cursor) == cursor + 1
      case Pointer(_) => WireEnd(packet, cursor) == cursor + 2
      case Label(_, next) => WireEnd(packet, cursor) == WireEnd(packet, next)
      case Malformed(_) => true
  {
  }

  /** The checks of one turn of the loop, in the order of the code. */
  method ReadStep(packet: seq<byte>, cursor: nat) returns (step: Step)
    ensures step == StepAt(packet, cursor)
  {
    if cursor >= |packet| { return Malformed(TruncatedName); }
    var length: nat := packet[cursor];
    if length == 0 { return End; }
    if length >= 192 {
      if cursor + 1 >= |packet| { return Malformed(TruncatedPointer); }
      return Pointer(length % 64 * 256 + packet[cursor + 1]);
    }
    if length >= 64 { return Malformed(InvalidLabel); }
    var end := cursor + 1 + length;
    if end > |packet| || !ValidUtf8(packet[cursor + 1..end]) { return Malformed(InvalidLabelData); }
    step := Label(packet[cursor + 1..end], end);
  }

  /** Offset and end of the name as written: fixed by the first jump, the cursor before it. */
  ghost predicate OffsetOk(packet: seq<byte>, start: nat, jumped: bool, offset: nat, cursor: nat) {
    if jumped then start < offset <= |packet| && offset == WireEnd(packet, start)
    else start <= offset == cursor && WireEnd(packet, cursor) == WireEnd(packet, start)
  }

  lemma OffsetStep(packet: seq<byte>, start: nat, jumped: bool, offset: nat, cursor: nat)
    requires OffsetOk(packet, start, jumped, offset, cursor)
    ensures
      match StepAt(packet, cursor)
      case End => OffsetOk(packet, start, true, if jumped then offset else cursor + 1, cursor)
      case Pointer(target) => OffsetOk(packet, start, true, if jumped then offset else cursor + 2, target)
      case Label(_, next) => OffsetOk(packet, start, jumped, if jumped then offset else next, next)
      case Malformed(_) => true
  {
    WireStep(packet, cursor);
  }

  /** `decode_name` computes the reference meaning of every packet and offset, always
      terminates, and on success leaves the offset inside the packet behind the name. */
  method DecodeName(packet: seq<byte>, offset: nat) returns (result: Result<seq<byte>, NameError>, newOffset: nat)
    ensures result == NameAt(packet, offset)
    ensures result.Ok? ==> offset < newOffset <= |packet| && newOffset == WireEnd(packet, offset)
  {
    var labels: seq<seq<byte>> := [];
    var cursor: nat := offset;
    newOffset := offset;
    var jumped: bool, jumps: nat := false, 0;
    ghost var walk := [offset];
    while true
      invariant Reached(packet, offset, walk, cursor, labels, jumps) && jumps <= |packet|
      invariant OffsetOk(packet, offset, jumped, newOffset, cursor)
      decreases |packet| - jumps, |packet| - cursor
    {
      var step := ReadStep(packet, cursor);
      OffsetStep(packet, offset, jumped, newOffset, cursor);
      if step.Stops() {
        ReachedEnd(packet, offset, walk, cursor, labels, jumps);
        if step.Malformed? { return Err(step.error), newOffset; }
        if !jumped { newOffset := cursor + 1; }
        return Ok(Join(labels, DOT)), newOffset;
      }
      ReachedNext(packet, offset, walk, cursor, labels, jumps);
      walk := walk + [step.Next()];
      if step.Pointer? {
        if !jumped { newOffset := cursor + 2; }
        cursor, jumped, jumps := step.target, true, jumps + 1;
        assert labels + [] == labels;
        if jumps > |packet| {
          BudgetSpent(packet, offset, walk, cursor, labels, jumps);
          return Err(PointerLoop), newOffset;
        }
      } else {
        labels, cursor := labels + [step.text], step.next;
        if !jumped { newOffset := cursor; }
      }
    }
  }

  // ----- what a pointer loop is -----

  ghost predicate HasWalk(packet: seq<byte>, start: nat, length: nat) {
    exists walk :: IsWalk(packet, start, walk) && |walk| == length
  }

  lemma {:induction false} EndlessHasWalk(packet: seq<byte>, start: nat, length: nat)
    requires length > 0
    requires !exists complete :: IsCompleteWalk(packet, start, complete)
    ensures HasWalk(packet, start, length)
  {
    if length == 1 {
      assert IsWalk(packet, start, [start]);
    } else {
      EndlessHasWalk(packet, start, length - 1);
      var front :| IsWalk(packet, start, front) && |front| == length - 1;
      assert !IsCompleteWalk(packet, start, front);
      WalkGrows(packet, start, front, front + [StepAt(packet, front[|front| - 1]).Next()]);
    }
  }

  /** "name pointer loop" is reported exactly for the names whose expansion goes on forever. */
  lemma LoopIffEndless(packet: seq<byte>, start: nat)
    ensures NameAt(packet, start) == Err(PointerLoop)
      <==> forall length: nat :: length > 0 ==> HasWalk(packet, start, length)
  {
    if walk :| IsCompleteWalk(packet, start, walk) {
      NameAtOfWalk(packet, start, walk);
      assert StepAt(packet, walk[|walk| - 1]) != Malformed(PointerLoop);
      forall longer | IsWalk(packet, start, longer) ensures |longer| <= |walk| {
        CompleteWalkIsLongest(packet, start, walk, longer);
      }
      assert !HasWalk(packet, start, |walk| + 1);
    } else {
      forall length: nat | length > 0 ensures HasWalk(packet, start, length) {
        EndlessHasWalk(packet, start, length);
      }
    }
  }
}
