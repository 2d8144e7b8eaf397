/**
 Reading a growing serial log: each poll returns the lines completed since the last one. The
 reader counts bytes of the lossily decoded text, and moves the file offset by that count.
 */
module SerialLog {
  import opened Wrappers
  import opened Bytes
  import Text

  const LF: byte := 10
  const CR: byte := 13

  /** U+FFFD. */
  const REPLACEMENT: seq<byte> := [0xEF, 0xBF, 0xBD]

  // ----- lossy decoding -----

  /** Length of the ill-formed piece at the front: the longest start of a character, or one
      byte (`String::from_utf8_lossy`). */
  function IllFormedLength(s: seq<byte>): (n: nat)
    requires s != [] && CharLength(s) == 0
    ensures 1 <= n <= 3 && n <= |s|
    ensures forall i :: 0 <= i < n ==> s[i] >= 0x80
  {
    var n := LeadLength(s[0]);
    if n < 2 || |s| < 2 || !SecondOk(s[0], s[1]) then 1
    else if |s| < 3 || !Continuation(s[2]) then 2
    else 3
  }

  /** Length of the first piece, a character or an ill-formed piece. */
  function PieceLength(s: seq<byte>): (n: nat)
    requires s != []
    ensures 1 <= n <= |s|
  {
    if CharLength(s) > 0 then CharLength(s) else IllFormedLength(s)
  }

  function FirstPiece(s: seq<byte>): seq<byte>
    requires s != []
  {
    if CharLength(s) > 0 then s[..CharLength(s)] else REPLACEMENT
  }

  function Lossy(s: seq<byte>): seq<byte>
    decreases |s|
  {
    if s == [] then []
    else FirstPiece(s) + Lossy(s[PieceLength(s)..])
  }

  /** Every ill-formed piece is as long as its replacement. */
  predicate PiecesFit(s: seq<byte>)
    decreases |s|
  {
    s == [] || ((CharLength(s) == 0 ==> IllFormedLength(s) == 3) && PiecesFit(s[PieceLength(s)..]))
  }

  lemma {:induction false} LossyLength(s: seq<byte>)
    ensures |Lossy(s)| >= |s|
    ensures |Lossy(s)| == |s| <==> PiecesFit(s)
    decreases |s|
  {
    if s != [] {
      LossyLength(s[PieceLength(s)..]);
    }
  }

  lemma {:induction false} LossyOfValid(s: seq<byte>)
    requires ValidUtf8(s)
    ensures Lossy(s) == s && PiecesFit(s)
    decreases |s|
  {
    if s != [] {
      LossyOfValid(s[CharLength(s)..]);
      assert s == s[..CharLength(s)] + s[CharLength(s)..];
    }
  }

  /** U+FFFD in UTF-8 stands for every ill-formed piece. */
  lemma IllFormedReplaced(s: seq<byte>)
    requires s != [] && CharLength(s) == 0
    ensures Lossy(s) == [0xEF, 0xBF, 0xBD] + Lossy(s[IllFormedLength(s)..]) && Utf8(0xFFFD) == [0xEF, 0xBF, 0xBD]
  {
  }

  /** An ill-formed piece is as long as possible: one byte, or more if they begin the encoding of
      some character, which no longer part of the text does. */
  lemma IllFormedIsMaximal(s: seq<byte>)
    requires s != [] && CharLength(s) == 0
    ensures IllFormedLength(s) > 1 ==> exists v :: Scalar(v) && s[..IllFormedLength(s)] < Utf8(v)
    ensures forall m, v :: IllFormedLength(s) < m <= |s| && Scalar(v) ==> !(s[..m] <= Utf8(v))
  {
    var n := IllFormedLength(s);
    if n > 1 {
      var pad: seq<byte> := if LeadLength(s[0]) - n == 1 then [0x80] else [0x80, 0x80];
      var v := DecodedChar(s[..n] + pad);
      assert s[..n] < Utf8(v);
    }
    forall m, v | n < m <= |s| && Scalar(v) ensures !(s[..m] <= Utf8(v)) {
      NoLongerStart(s, m, v);
    }
  }

  lemma NoLongerStart(s: seq<byte>, m: nat, v: nat)
    requires s != [] && CharLength(s) == 0 && IllFormedLength(s) < m <= |s| && Scalar(v)
    ensures !(s[..m] <= Utf8(v))
  {
    if s[..m] <= Utf8(v) {
      var e := Utf8(v);
      assert forall i :: 0 <= i < m ==> s[i] == s[..m][i] == e[i];
      EncodedChar(e, v);
    }
  }

  // ----- lines -----

  predicate Closed(s: seq<byte>) { s == [] || s[|s| - 1] == LF }

  /** `str::split_inclusive('\n')`. */
  function SplitInclusive(s: seq<byte>): (pieces: seq<seq<byte>>)
    ensures s != [] ==> pieces != []
  {
    if s == [] then [] else Prepend(s[0], SplitInclusive(s[1..]))
  }

  /** One more byte in front: a line end is a piece of its own, other bytes join the next piece. */
  function Prepend(b: byte, rest: seq<seq<byte>>): (pieces: seq<seq<byte>>)
    ensures pieces != []
  {
    if b == LF || rest == [] then [[b]] + rest else [[b] + rest[0]] + rest[1..]
  }

  lemma PrependConcat(b: byte, first: seq<seq<byte>>, rest: seq<seq<byte>>)
    requires b == LF || first != []
    ensures Prepend(b, first + rest) == Prepend(b, first) + rest
  {
  }

  function Trimmed(line: seq<byte>): seq<byte>
    decreases |line|
  {
    if line != [] && line[|line| - 1] in {CR, LF} then Trimmed(line[..|line| - 1]) else line
  }

  /** Only carriage returns and newlines at the end are cut off, all of them. */
  lemma {:induction false} TrimmedSpelled(line: seq<byte>)
    ensures Trimmed(line) <= line && forall i :: |Trimmed(line)| <= i < |line| ==> line[i] == 13 || line[i] == 10
    ensures Trimmed(line) != [] ==> Trimmed(line)[|Trimmed(line)| - 1] != 13 && Trimmed(line)[|Trimmed(line)| - 1] != 10
    decreases |line|
  {
    if line != [] && line[|line| - 1] in {CR, LF} {
      TrimmedSpelled(line[..|line| - 1]);
    }
  }

  function TrimmedAll(lines: seq<seq<byte>>): seq<seq<byte>> {
    seq(|lines|, i requires 0 <= i < |lines| => Trimmed(lines[i]))
  }

  /** The complete lines at the front of `s`, up to its last newline. */
  function Complete(s: seq<byte>): (c: seq<byte>)
    ensures c <= s && Closed(c)
    decreases |s|
  {
    if Closed(s) then s else Complete(s[..|s| - 1])
  }

  lemma {:induction false} CompleteRest(s: seq<byte>)
    ensures LF !in s[|Complete(s)|..]
    decreases |s|
  {
    if !Closed(s) {
      var t := s[..|s| - 1];
      CompleteRest(t);
      assert s[|Complete(s)|..] == t[|Complete(t)|..] + [s[|s| - 1]];
    }
  }

  lemma {:induction false} CompleteUnique(head: seq<byte>, tail: seq<byte>)
    requires Closed(head) && LF !in tail
    ensures Complete(head + tail) == head
    decreases |tail|
  {
    if tail == [] {
      assert head + tail == head;
    } else {
      var s := head + tail;
      assert s[..|s| - 1] == head + tail[..|tail| - 1];
      assert s[|s| - 1] == tail[|tail| - 1];
      CompleteUnique(head, tail[..|tail| - 1]);
    }
  }

  lemma {:induction false} SplitClosed(head: seq<byte>, tail: seq<byte>)
    requires Closed(head)
    ensures SplitInclusive(head + tail) == SplitInclusive(head) + SplitInclusive(tail)
    decreases |head|
  {
    if head == [] {
      assert head + tail == tail;
    } else {
      var s := head + tail;
      assert s[1..] == head[1..] + tail && s[0] == head[0];
      SplitClosed(head[1..], tail);
      PrependConcat(head[0], SplitInclusive(head[1..]), SplitInclusive(tail));
    }
  }

  predicate AllClosed(lines: seq<seq<byte>>) { forall i :: 0 <= i < |lines| ==> lines[i] != [] && Closed(lines[i]) }

  lemma {:induction false} ClosedLines(s: seq<byte>)
    requires Closed(s)
    ensures AllClosed(SplitInclusive(s))
    decreases |s|
  {
    if s != [] {
      ClosedLines(s[1..]);
    }
  }

  lemma {:induction false} OpenPiece(s: seq<byte>)
    requires LF !in s && s != []
    ensures SplitInclusive(s) == [s]
    decreases |s|
  {
    if |s| > 1 {
      OpenPiece(s[1..]);
      assert s == [s[0]] + s[1..];
    } else {
      assert s[1..] == [] && s == [s[0]];
    }
  }

  /** The pieces are the text, cut behind every newline and nowhere else. */
  lemma {:induction false} PiecesSpelled(s: seq<byte>)
    ensures Flattened(SplitInclusive(s)) == s
    ensures CutBehindNewlines(SplitInclusive(s))
    decreases |s|
  {
    if s != [] {
      var rest := SplitInclusive(s[1..]);
      PiecesSpelled(s[1..]);
      assert s == [s[0]] + s[1..];
      if s[0] == LF || rest == [] {
        CutsPrepended([s[0]], rest);
      } else {
        var first := [s[0]] + rest[0];
        assert first[..|first| - 1] == [s[0]] + rest[0][..|rest[0]| - 1];
        CutsPrepended(first, rest[1..]);
        assert rest[0] + Flattened(rest[1..]) == s[1..];
      }
    }
  }

  /** A newline ends every piece but the last, and none stands before the end of a piece. */
  predicate CutBehindNewlines(pieces: seq<seq<byte>>) {
    && (forall i :: 0 <= i < |pieces| ==> pieces[i] != [] && 10 !in pieces[i][..|pieces[i]| - 1])
    && forall i :: 0 <= i < |pieces| - 1 ==> pieces[i][|pieces[i]| - 1] == 10
  }

  lemma CutsPrepended(first: seq<byte>, rest: seq<seq<byte>>)
    requires CutBehindNewlines(rest) && first != [] && 10 !in first[..|first| - 1]
    requires rest != [] ==> first[|first| - 1] == 10
    ensures CutBehindNewlines([first] + rest) && Flattened([first] + rest) == first + Flattened(rest)
  {
    assert ([first] + rest)[1..] == rest;
  }

  function Flattened(pieces: seq<seq<byte>>): seq<byte> {
    if pieces == [] then [] else pieces[0] + Flattened(pieces[1..])
  }

  function TotalLength(lines: seq<seq<byte>>): nat {
    if lines == [] then 0 else TotalLength(lines[..|lines| - 1]) + |lines[|lines| - 1]|
  }

  lemma {:induction false} TotalOfSplit(s: seq<byte>)
    ensures TotalLength(SplitInclusive(s)) == |s|
    decreases |s|
  {
    if s != [] {
      var rest := SplitInclusive(s[1..]);
      TotalOfSplit(s[1..]);
      if s[0] == LF || rest == [] {
        TotalFront([s[0]], rest);
      } else {
        TotalFront(rest[0], rest[1..]);
        TotalFront([s[0]] + rest[0], rest[1..]);
        assert rest == [rest[0]] + rest[1..];
      }
    }
  }

  lemma {:induction false} TotalFront(first: seq<byte>, lines: seq<seq<byte>>)
    ensures TotalLength([first] + lines) == |first| + TotalLength(lines)
    decreases |lines|
  {
    var all := [first] + lines;
    if lines == [] {
      assert all[..0] == [];
    } else {
      assert all[..|all| - 1] == [first] + lines[..|lines| - 1];
      TotalFront(first, lines[..|lines| - 1]);
    }
  }

  /** The pieces of a text: the complete lines, then at most one open piece. */
  lemma PiecesOfText(s: seq<byte>)
    ensures
      var lines, tail := SplitInclusive(Complete(s)), s[|Complete(s)|..];
      && AllClosed(lines) && TotalLength(lines) == |Complete(s)|
      && SplitInclusive(s) == lines + (if tail == [] then [] else [tail]) && !(tail != [] && Closed(tail))
  {
    var tail := s[|Complete(s)|..];
    assert s == Complete(s) + tail;
    CompleteRest(s);
    SplitClosed(Complete(s), tail);
    ClosedLines(Complete(s));
    TotalOfSplit(Complete(s));
    if tail != [] {
      OpenPiece(tail);
    }
  }

  // ----- the reader -----

  function Unread(content: seq<byte>, offset: nat): seq<byte> { if offset <= |content| then content[offset..] else [] }

  function Restarted(metaLength: nat, offset: nat): nat { if offset > metaLength then 0 else offset }

  /** Lines and new offset of a poll that could read the file. */
  function LinesFrom(buf: seq<byte>): seq<seq<byte>> { TrimmedAll(SplitInclusive(Complete(Lossy(buf)))) }

  function Consumed(buf: seq<byte>): nat { |Complete(Lossy(buf))| }

  /** `read_new_serial_lines`: None stands for a failing `metadata`, `open`, `seek` or read. */
  method ReadNewSerialLines(metaLength: Option<nat>, content: Option<seq<byte>>, offset: nat)
    returns (lines: seq<seq<byte>>, newOffset: nat)
    ensures metaLength.None? ==> lines == [] && newOffset == offset
    ensures metaLength.Some? && content.None? ==>
      lines == [] && newOffset == if offset > metaLength.value then 0 else offset
    ensures metaLength.Some? && content.Some? ==>
      var start := if offset > metaLength.value then 0 else offset;
      var buf := Unread(content.value, start);
      lines == LinesFrom(buf) && newOffset == start + Consumed(buf)
  {
    lines, newOffset := [], offset;
    if metaLength.None? {
      return;
    }
    if newOffset > metaLength.value {
      newOffset := 0;
    }
    if content.None? {
      return;
    }
    var buf := Unread(content.value, newOffset);
    if buf == [] {
      return;
    }
    var consumed;
    lines, consumed := TakeLines(Lossy(buf));
    newOffset := newOffset + consumed;
  }

  lemma TakeOne(complete: seq<seq<byte>>, k: nat)
    requires k < |complete|
    ensures TrimmedAll(complete[..k + 1]) == TrimmedAll(complete[..k]) + [Trimmed(complete[k])]
    ensures TotalLength(complete[..k + 1]) == TotalLength(complete[..k]) + |complete[k]|
  {
    assert complete[..k + 1][..k] == complete[..k];
  }

  /** The loop over the pieces, left at the first one without a newline. */
  method TakeLines(text: seq<byte>) returns (lines: seq<seq<byte>>, consumed: nat)
    ensures lines == TrimmedAll(SplitInclusive(Complete(text))) && consumed == |Complete(text)|
  {
    var pieces := SplitInclusive(text);
    ghost var complete := SplitInclusive(Complete(text));
    PiecesOfText(text);
    lines, consumed := [], 0;
    var k := 0;
    while k < |pieces|
      invariant k <= |complete|
      invariant lines == TrimmedAll(complete[..k]) && consumed == TotalLength(complete[..k])
    {
      var chunk := pieces[k];
      assert k < |complete| ==> chunk == complete[k];
      if chunk[|chunk| - 1] != LF {
        break;
      }
      TakeOne(complete, k);
      lines := lines + [Trimmed(chunk)];
      consumed := consumed + |chunk|;
      k := k + 1;
    }
    assert complete[..k] == complete;
  }

  // ----- decoding respects line ends -----

  /** A piece that starts before a newline ends at or before it. */
  lemma PieceStaysBeforeLineEnd(head: seq<byte>, tail: seq<byte>)
    requires head != [] && Closed(head)
    ensures CharLength(head + tail) == CharLength(head) && PieceLength(head + tail) == PieceLength(head)
    ensures Closed(head[PieceLength(head)..])
  {
    var s, n := head + tail, LeadLength(head[0]);
    assert s[0] == head[0] && s[|head| - 1] == LF;
    assert forall i :: 0 <= i < |head| ==> s[i] == head[i];
    if n > |head| {
      assert |head| > 1;
      assert !Continuation(s[|head| - 1]) && !SecondOk(s[0], LF);
      assert CharLength(s) == 0;
    }
    if CharLength(head) == 0 {
      assert head[|head| - 1] == LF;
      assert |head| > IllFormedLength(head);
    }
  }

  lemma Rest(head: seq<byte>, tail: seq<byte>, n: nat)
    requires n <= |head|
    ensures (head + tail)[n..] == head[n..] + tail && (head + tail)[..n] == head[..n]
  {
  }

  lemma SamePiece(s: seq<byte>, r: seq<byte>)
    requires s != [] && s <= r && CharLength(s) == CharLength(r)
    ensures FirstPiece(s) == FirstPiece(r)
  {
  }

  /** Decoding starts with the same piece whether or not `tail` follows. */
  lemma SharedPiece(head: seq<byte>, tail: seq<byte>) returns (n: nat, piece: seq<byte>)
    requires head != [] && Closed(head)
    ensures 1 <= n <= |head| && Closed(head[n..])
    ensures Lossy(head) == piece + Lossy(head[n..]) && Lossy(head + tail) == piece + Lossy(head[n..] + tail)
  {
    n, piece := PieceLength(head), FirstPiece(head);
    PieceStaysBeforeLineEnd(head, tail);
    Rest(head, tail, n);
    SamePiece(head, head + tail);
  }

  lemma {:induction false} LossyConcat(head: seq<byte>, tail: seq<byte>)
    requires Closed(head)
    ensures Lossy(head + tail) == Lossy(head) + Lossy(tail)
    decreases |head|
  {
    if head == [] {
      assert head + tail == tail;
    } else {
      var n, piece := SharedPiece(head, tail);
      LossyConcat(head[n..], tail);
      Text.Regroup(piece, Lossy(head[n..]), Lossy(tail));
    }
  }

  lemma {:induction false} FitConcat(head: seq<byte>, tail: seq<byte>)
    requires Closed(head)
    ensures PiecesFit(head + tail) <==> PiecesFit(head) && PiecesFit(tail)
    decreases |head|
  {
    if head == [] {
      assert head + tail == tail;
    } else {
      PieceStaysBeforeLineEnd(head, tail);
      Rest(head, tail, PieceLength(head));
      FitConcat(head[PieceLength(head)..], tail);
    }
  }

  /** Decoding neither adds nor removes line ends. */
  lemma PieceLineEnds(s: seq<byte>)
    requires s != []
    ensures LF !in s ==> LF !in FirstPiece(s)
    ensures FirstPiece(s) != []
    ensures s[PieceLength(s) - 1] == LF ==> Closed(FirstPiece(s))
  {
    assert CharLength(s) == 0 ==> s[PieceLength(s) - 1] >= 0x80;
  }

  lemma {:induction false} LossyLineEnds(s: seq<byte>)
    ensures LF !in s ==> LF !in Lossy(s)
    ensures Closed(s) ==> Closed(Lossy(s))
    ensures s != [] ==> Lossy(s) != []
    decreases |s|
  {
    if s != [] {
      var n := PieceLength(s);
      var rest := s[n..];
      PieceLineEnds(s);
      LossyLineEnds(rest);
      EndOfConcat(FirstPiece(s), Lossy(rest));
    }
  }

  lemma EndOfConcat(a: seq<byte>, b: seq<byte>)
    ensures b != [] ==> (Closed(a + b) <==> Closed(b))
    ensures b == [] ==> a + b == a
    ensures LF !in a && LF !in b ==> LF !in a + b
  {
  }

  /** A poll hands out the decoded complete lines of what it has not read yet. */
  lemma PollDecodesCompleteLines(buf: seq<byte>)
    ensures Complete(Lossy(buf)) == Lossy(Complete(buf))
  {
    var head := Complete(buf);
    var tail := buf[|head|..];
    assert buf == head + tail;
    CompleteRest(buf);
    LossyConcat(head, tail);
    LossyLineEnds(head);
    LossyLineEnds(tail);
    CompleteUnique(Lossy(head), Lossy(tail));
  }

  // ----- every schedule of polls over a growing log -----

  /** The file's length when its metadata was read, and what was then read. */
  datatype Poll = Poll(metaLength: nat, content: seq<byte>)

  predicate Growing(polls: seq<Poll>) {
    && (forall i :: 0 <= i < |polls| ==> polls[i].metaLength <= |polls[i].content|)
    && (forall i :: 0 < i < |polls| ==>
          polls[i - 1].content <= polls[i].content && |polls[i - 1].content| <= polls[i].metaLength)
  }

  /** Lines handed out and offset after a run of polls that could all read the file, for any
      way to take lines from what is unread. */
  function RunOf(take: seq<byte> -> (seq<seq<byte>>, nat), polls: seq<Poll>): (seq<seq<byte>>, nat)
    decreases |polls|
  {
    if polls == [] then ([], 0)
    else
      var (lines, offset) := RunOf(take, polls[..|polls| - 1]);
      var last := polls[|polls| - 1];
      var start := Restarted(last.metaLength, offset);
      var (more, consumed) := take(Unread(last.content, start));
      (lines + more, start + consumed)
  }

  function Take(): seq<byte> -> (seq<seq<byte>>, nat) { (buf: seq<byte>) => (LinesFrom(buf), Consumed(buf)) }

  function AfterPolls(polls: seq<Poll>): (seq<seq<byte>>, nat) { RunOf(Take(), polls) }

  function Final(polls: seq<Poll>): seq<byte> { if polls == [] then [] else polls[|polls| - 1].content }

  /** After every poll the offset was at the end of the last complete line. */
  predicate RightOffsets(take: seq<byte> -> (seq<seq<byte>>, nat), polls: seq<Poll>)
    decreases |polls|
  {
    polls == []
    || (RightOffsets(take, polls[..|polls| - 1]) && RunOf(take, polls).1 == |Complete(Final(polls))|)
  }

  predicate OffsetsRight(polls: seq<Poll>) { RightOffsets(Take(), polls) }

  lemma TrimmedConcat(a: seq<seq<byte>>, b: seq<seq<byte>>)
    ensures TrimmedAll(a + b) == TrimmedAll(a) + TrimmedAll(b)
  {
  }

  /** Reading on from the end of the complete lines: the complete lines of the longer log are
      the earlier ones and the new ones. */
  lemma CompleteGrows(done: seq<byte>, before: seq<byte>, after: seq<byte>)
    requires before <= after && done == Complete(before)
    ensures done <= after && Complete(after) == done + Complete(after[|done|..])
  {
    assert done <= before;
    assert after == done + after[|done|..];
    CompleteOnwards(done, after[|done|..]);
  }

  lemma CompleteOnwards(done: seq<byte>, buf: seq<byte>)
    requires Closed(done)
    ensures Complete(done + buf) == done + Complete(buf)
  {
    var head := Complete(buf);
    CompleteRest(buf);
    CompleteUnique(done + head, buf[|head|..]);
    assert (done + head) + buf[|head|..] == done + buf;
  }

  /** One more poll from the end of the complete lines `done`, with `buf` unread. */
  lemma NextPoll(done: seq<byte>, buf: seq<byte>)
    requires Closed(done)
    ensures Consumed(buf) == |Complete(buf)| <==> PiecesFit(Complete(buf))
    ensures PiecesFit(done + Complete(buf)) <==> PiecesFit(done) && PiecesFit(Complete(buf))
    ensures TrimmedAll(SplitInclusive(Lossy(done + Complete(buf))))
      == TrimmedAll(SplitInclusive(Lossy(done))) + LinesFrom(buf)
  {
    var added := Complete(buf);
    PollDecodesCompleteLines(buf);
    LossyLength(added);
    LossyConcat(done, added);
    FitConcat(done, added);
    LossyLineEnds(done);
    SplitClosed(Lossy(done), Lossy(added));
    TrimmedConcat(SplitInclusive(Lossy(done)), SplitInclusive(Lossy(added)));
  }

  lemma LastPoll(polls: seq<Poll>)
    requires Growing(polls) && polls != []
    ensures
      var front, last := polls[..|polls| - 1], polls[|polls| - 1];
      Growing(front) && Final(front) <= last.content && |Final(front)| <= last.metaLength
  {
    if |polls| > 1 {
      assert Final(polls[..|polls| - 1]) == polls[|polls| - 2].content;
    }
  }

  /** One more poll, when the offset was right: it reads on from the complete lines so far. */
  lemma OneMore(take: seq<byte> -> (seq<seq<byte>>, nat), polls: seq<Poll>, done: seq<byte>, buf: seq<byte>)
    requires Growing(polls) && polls != [] && done == Complete(Final(polls[..|polls| - 1]))
    requires done <= Final(polls) && buf == Final(polls)[|done|..]
    requires |Complete(Final(polls))| == |done| + |Complete(buf)|
    ensures RightOffsets(take, polls)
      <==> RightOffsets(take, polls[..|polls| - 1]) && take(buf).1 == |Complete(buf)|
    ensures RightOffsets(take, polls)
      ==> RunOf(take, polls).0 == RunOf(take, polls[..|polls| - 1]).0 + take(buf).0
  {
    LastPoll(polls);
    var front := polls[..|polls| - 1];
    if RightOffsets(take, front) {
      assert RunOf(take, front).1 == |done|;
      assert Unread(polls[|polls| - 1].content, |done|) == buf;
    }
  }

  /** Exactly when every ill-formed piece of the complete lines is three bytes long does the
      offset stay right; then the lines handed out are the complete lines, decoded, each once. */
  lemma {:induction false} OffsetsRightIffPiecesFit(polls: seq<Poll>)
    requires Growing(polls)
    ensures OffsetsRight(polls) <==> PiecesFit(Complete(Final(polls)))
    ensures OffsetsRight(polls) ==>
      AfterPolls(polls).0 == TrimmedAll(SplitInclusive(Lossy(Complete(Final(polls)))))
    decreases |polls|
  {
    if polls == [] {
      assert Complete(Final(polls)) == [];
    } else {
      var front := polls[..|polls| - 1];
      LastPoll(polls);
      OffsetsRightIffPiecesFit(front);
      var done := Complete(Final(front));
      CompleteGrows(done, Final(front), Final(polls));
      var buf := Final(polls)[|done|..];
      NextPoll(done, buf);
      OneMore(Take(), polls, done, buf);
    }
  }

  /** A log of UTF-8 lines is read exactly: over every schedule of polls the lines are the
      complete lines of the file, without their line ends, and the offset is at a line start. */
  lemma Utf8LogIsReadExactly(polls: seq<Poll>)
    requires Growing(polls) && ValidUtf8(Complete(Final(polls)))
    ensures AfterPolls(polls).0 == TrimmedAll(SplitInclusive(Complete(Final(polls))))
    ensures AfterPolls(polls).1 == |Complete(Final(polls))|
  {
    LossyOfValid(Complete(Final(polls)));
    OffsetsRightIffPiecesFit(polls);
    assert polls == [] ==> Complete(Final(polls)) == [];
  }

  /** A stray byte in a line: the offset ends up beyond the line, even beyond the file. */
  lemma StrayByteMovesOffsetTooFar()
    ensures
      var polls := [Poll(2, [0xFF, LF])];
      Growing(polls) && AfterPolls(polls).1 == 4 && |Complete(Final(polls))| == 2
  {
    var line: seq<byte> := [0xFF, LF];
    var polls := [Poll(2, line)];
    assert line[1..] == [LF] && line[2..] == [];
    assert Lossy([LF]) == [LF] by {
      assert [LF][1..] == [];
    }
    assert Lossy(line) == REPLACEMENT + [LF];
    assert polls[..0] == [] && RunOf(Take(), []) == ([], 0);
    assert Unread(line, 0) == line && Restarted(2, 0) == 0;
    assert Take()(line).1 == Consumed(line) == 4;
    assert RunOf(Take(), polls).1 == 0 + Take()(line).1;
  }
}
