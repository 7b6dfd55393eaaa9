/** Refusing binary windows, aligning a window to a line boundary, and assembling a result. */
module Windows {
  import opened Foundation
  import opened LineFraming
  import opened Parsers
  import Utf8

  // ---------------------------------------------------------------- binary content

  predicate StartsWithUtf16Bom(s: bytes) {
    [0xFF, 0xFE] <= s || [0xFE, 0xFF] <= s
  }

  function StripUtf8Bom(s: bytes): bytes {
    if [0xEF, 0xBB, 0xBF] <= s then s[3..] else s
  }

  /** `reject_binary_prefix`: a code point cut by the window's end is not evidence of binary content. */
  predicate AcceptsAsText(s: bytes) {
    !StartsWithUtf16Bom(s) && 0 !in s && Utf8.FromUtf8(StripUtf8Bom(s)) != Utf8.Invalid
  }

  /** A NUL-free window without a UTF-16 mark is accepted exactly when it begins some well-formed text. */
  lemma AcceptedIffTextPrefix(s: bytes)
    requires 0 !in s && !StartsWithUtf16Bom(s)
    ensures AcceptsAsText(s) <==> exists t: bytes :: Utf8.WellFormed(StripUtf8Bom(s) + t)
  {
    Utf8.NotInvalidIffPrefix(StripUtf8Bom(s));
  }

  /** A NUL-free text object, as total success requires of it. */
  ghost predicate TextObject(s: bytes) {
    Utf8.WellFormed(s) && 0 !in s
  }

  lemma BomIsText(s: bytes)
    ensures Utf8.FromUtf8(s) != Utf8.Invalid ==>
      !StartsWithUtf16Bom(s) && Utf8.FromUtf8(StripUtf8Bom(s)) != Utf8.Invalid
  {
    if StartsWithUtf16Bom(s) { assert Utf8.Width(s[0]) == 0; }
  }

  /** Every window of a text object that opens on a line boundary is accepted, wherever it ends. */
  lemma TextWindowAccepted(obj: bytes, a: nat, b: nat)
    requires TextObject(obj) && a <= b <= |obj| && Boundary(obj, a)
    ensures AcceptsAsText(obj[a..b])
  {
    Utf8.ValidIffWellFormed(obj);
    if a > 0 { TextAfterBoundary(obj, 0, a); }
    assert obj[0..] == obj;
    SlicesJoin(obj, a, b);
    Utf8.FrontOfValid(obj[a..b], obj[b..]);
    BomIsText(obj[a..b]);
    assert forall x <- obj[a..b] :: x in obj;
  }

  // ---------------------------------------------------------------- alignment

  /** The end of the line that byte `p` of the window is in, if a terminator is in sight. */
  function Alignment(s: bytes, p: nat): Option<nat> {
    if p < |s| && BreakFrom(s, p) < |s| then Some(EndFrom(s, p)) else None
  }

  method NextLineBoundary(s: bytes, start: nat) returns (r: Option<nat>)
    ensures r == Alignment(s, start)
  {
    var index := start;
    while index < |s|
      invariant start <= index && (start <= |s| ==> index <= |s|)
      invariant forall k | start <= k < index && k < |s| :: !IsBreak(s[k])
    {
      if s[index] == LF || s[index] == CR {
        BreakFromIs(s, start, index);
        if s[index] == LF { return Some(index + 1); }
        if index + 1 < |s| && s[index + 1] == LF { return Some(index + 2); }
        return Some(index + 1);
      }
      index := index + 1;
    }
    if start < |s| { BreakFromIs(s, start, |s|); }
    return None;
  }

  /** Whether the slice starts a line, from the byte before it and its own first byte. */
  predicate SliceStartsOnLineBoundary(previous: Option<byte>, first: Option<byte>) {
    match previous
    case None => true
    case Some(b) => b == LF || (b == CR && first != Some(LF))
  }

  lemma SliceBoundaryIsBoundary(obj: bytes, start: nat)
    requires 0 < start < |obj|
    ensures SliceStartsOnLineBoundary(Some(obj[start - 1]), Some(obj[start])) <==> Boundary(obj, start)
  {
  }

  method FirstFullLineStart(s: bytes, boundaryBeforeStart: bool) returns (r: Option<nat>)
    ensures r == if boundaryBeforeStart then Some(0) else Alignment(s, 0)
  {
    if boundaryBeforeStart { return Some(0); }
    r := NextLineBoundary(s, 0);
  }

  method MidpointAlignment(s: bytes, midpoint: nat) returns (r: Option<nat>)
    ensures r == Alignment(s, midpoint)
  {
    if midpoint >= |s| { return None; }
    if s[midpoint] == LF { return Some(midpoint + 1); }
    if s[midpoint] == CR {
      if midpoint + 1 < |s| && s[midpoint + 1] == LF { return Some(midpoint + 2); }
      return Some(midpoint + 1);
    }
    r := NextLineBoundary(s, midpoint);
  }

  // ---------------------------------------------------------------- tail

  /** Framing a suffix from its aligned start gives a tail of the whole framing. */
  lemma SuffixLines(obj: bytes, q: nat)
    requires q <= |obj| && Boundary(obj, q)
    ensures Lines(obj[q..], q) == LinesFrom(obj, q, 0)
    ensures Complete(obj[q..], q) == CompleteFrom(obj, q, 0)
    ensures Lines(obj, 0) == Lines(obj[..q], 0) + LinesFrom(obj, q, 0)
  {
    hide *;
    SliceAt(obj, q, 0);
    SplitAtBoundary(obj, q, 0);
  }

  /** In a window that reaches the end, the aligned start is a boundary of the whole. */
  lemma AlignedStartIsBoundary(obj: bytes, start: nat)
    requires 0 < start < |obj|
    ensures var t := obj[start..];
      var aligned := if Boundary(obj, start) then 0 else match Alignment(t, 0) case Some(a) => a case None => |t|;
      aligned <= |t| && Boundary(obj, start + aligned)
  {
    SliceAt(obj, start, 0);
    if !Boundary(obj, start) { BoundaryAtEndOnly(obj, start, EndFrom(obj, start)); }
  }

  lemma LastOfSuffix(front: seq<ParsedLine>, rest: seq<ParsedLine>, n: nat)
    requires |rest| >= n || front == []
    ensures Last(front + rest, n) == Last(rest, n)
  {
    if front == [] { assert front + rest == rest; }
  }

  // ---------------------------------------------------------------- middle

  /** The lines after the one holding the middle byte, or all of them when that one never ends. */
  function MidLines(obj: bytes): seq<ParsedLine> {
    if obj == [] then []
    else
      var ls := Lines(obj, 0);
      LineHoldingHolds(obj, 0, |obj| / 2, 0);
      var i := LineHolding(obj, 0, |obj| / 2);
      if ls[i].ending == None then ls else ls[i + 1..]
  }

  /** Every byte of a line sees the same end of line ahead. */
  lemma SameLineEnd(s: bytes, p: nat, m: nat)
    requires p <= m < |s| && m < EndFrom(s, p)
    ensures EndFrom(s, m) == EndFrom(s, p)
    ensures BreakFrom(s, m) < |s| <==> BreakFrom(s, p) < |s|
  {
    BreakFromFound(s, p);
    BreakFromIs(s, m, if m <= BreakFrom(s, p) then BreakFrom(s, p) else m);
  }

  /** What the middle lines are, said by position. */
  lemma MidLinesByPosition(obj: bytes)
    requires obj != []
    ensures var m := |obj| / 2;
      MidLines(obj) == if BreakFrom(obj, m) < |obj| then LinesFrom(obj, EndFrom(obj, m), 0) else Lines(obj, 0)
  {
    var m := |obj| / 2;
    var i := LineHolding(obj, 0, m);
    LineHoldingHolds(obj, 0, m, 0);
    SameLineEnd(obj, StartOf(obj, 0, i), m);
    StartIsOffset(obj, 0, i, 0);
    DropLines(obj, 0, i + 1, 0);
  }

  /** An alignment strictly inside a window is the end of that line in the whole object. */
  lemma AlignmentInWindow(obj: bytes, t: bytes, start: nat, m: nat)
    requires Window(obj, t, start) && Alignment(t, m).Some? && Alignment(t, m).value < |t|
    ensures start + Alignment(t, m).value == EndFrom(obj, start + m) && BreakFrom(obj, start + m) < |obj|
  {
    BreakInWindow(obj, t, start, m);
    LineInWindow(obj, t, start, m, 0);
  }

  /** Settled lines after the alignment are the object's lines after the middle one. */
  lemma MidInWindow(obj: bytes, t: bytes, start: nat, n: nat)
    requires obj != [] && Window(obj, t, start) && start <= |obj| / 2
    requires var m := |obj| / 2 - start; Alignment(t, m).Some?
    requires var a := Alignment(t, |obj| / 2 - start).value; n > 0 && |Complete(t[a..], start + a)| >= n
    ensures var a := Alignment(t, |obj| / 2 - start).value;
      Take(Complete(t[a..], start + a), n) == Take(MidLines(obj), n)
  {
    hide BreakFrom, EndFrom, LinesFrom, CompleteFrom, MidLines, Lines, Take;
    var m := |obj| / 2 - start;
    var a := Alignment(t, m).value;
    NoneComplete(t[a..], start + a);
    AlignmentInWindow(obj, t, start, m);
    MidLinesByPosition(obj);
    CompleteInWindow(obj, t[a..], start + a, 0, 0);
    TakePrefix(Complete(t[a..], start + a), MidLines(obj), n);
  }

  lemma NoneComplete(s: bytes, base: nat)
    ensures s == [] ==> Complete(s, base) == []
  {
  }

  lemma TakePrefix<T>(a: seq<T>, b: seq<T>, n: nat)
    requires a <= b && |a| >= n
    ensures Take(a, n) == Take(b, n)
  {
  }

  // ---------------------------------------------------------------- results

  datatype ReadStrategy = RangeBackward | RangeMidpoint | ForwardStream

  datatype LineResult = LineResult(
    lines: seq<bytes>, byteOffsetStart: nat, byteOffsetEnd: nat,
    totalSize: nat, strategy: ReadStrategy, lineEnding: LineEnding)

  function Texts(ls: seq<ParsedLine>): (texts: seq<bytes>)
    ensures |texts| == |ls| && forall i | 0 <= i < |ls| :: texts[i] == ls[i].text
  {
    seq(|ls|, i requires 0 <= i < |ls| => ls[i].text)
  }

  function Endings(ls: seq<ParsedLine>): seq<LineEnding> {
    if ls == [] then []
    else (match ls[0].ending case Some(e) => [e] case None => []) + Endings(ls[1..])
  }

  /** Unknown for no terminator, the common one when there is one, `Mixed` otherwise. */
  function AggregateLineEndings(endings: seq<LineEnding>): LineEnding {
    if endings == [] then Unknown
    else if forall e <- endings :: e == endings[0] then endings[0]
    else Mixed
  }

  function EmptyResult(strategy: ReadStrategy, totalSize: nat): LineResult {
    LineResult([], 0, 0, totalSize, strategy, Unknown)
  }

  /**
   What a result says of the lines it stands for: their texts and the bytes they cover, and the
   terminator they share, `Mixed` when two of them differ, `Unknown` when none has one.
   */
  predicate AnswerOf(r: LineResult, ls: seq<ParsedLine>, totalSize: nat, strategy: ReadStrategy) {
    && |r.lines| == |ls| && (forall i | 0 <= i < |ls| :: r.lines[i] == ls[i].text)
    && r.byteOffsetStart == (if ls == [] then 0 else ls[0].start)
    && r.byteOffsetEnd == (if ls == [] then 0 else ls[|ls| - 1].end)
    && r.totalSize == totalSize && r.strategy == strategy
    && (r.lineEnding == Mixed <==> TerminatorsDiffer(ls))
    && (r.lineEnding == Unknown <==> forall i | 0 <= i < |ls| :: ls[i].ending == None)
    && (r.lineEnding != Mixed ==>
          forall i | 0 <= i < |ls| :: ls[i].ending.Some? ==> ls[i].ending.value == r.lineEnding)
  }

  predicate TerminatorsDiffer(ls: seq<ParsedLine>) {
    exists i, j | 0 <= i < |ls| && 0 <= j < |ls| ::
      ls[i].ending.Some? && ls[j].ending.Some? && ls[i].ending != ls[j].ending
  }

  lemma {:induction false} EndingsAre(ls: seq<ParsedLine>)
    ensures forall e <- Endings(ls) :: e != Mixed && e != Unknown && exists i | 0 <= i < |ls| :: ls[i].ending == Some(e)
    ensures forall i | 0 <= i < |ls| && ls[i].ending.Some? :: ls[i].ending.value in Endings(ls)
  {
    if ls != [] {
      var rest := ls[1..];
      EndingsAre(rest);
      forall e | e in Endings(ls) ensures exists i | 0 <= i < |ls| :: ls[i].ending == Some(e) {
        if e in Endings(rest) {
          var k :| 0 <= k < |rest| && rest[k].ending == Some(e);
          assert ls[k + 1].ending == Some(e);
        } else {
          assert ls[0].ending == Some(e);
        }
      }
      forall i | 0 <= i < |ls| && ls[i].ending.Some? ensures ls[i].ending.value in Endings(ls) {
        if i > 0 { assert rest[i - 1] == ls[i]; }
      }
    }
  }

  /** The aggregate ending, said of the lines it aggregates. */
  lemma AggregateMeaning(ls: seq<ParsedLine>)
    ensures var e := AggregateLineEndings(Endings(ls));
      && (e == Mixed <==> TerminatorsDiffer(ls))
      && (e == Unknown <==> forall i | 0 <= i < |ls| :: ls[i].ending == None)
      && (e != Mixed ==> forall i | 0 <= i < |ls| :: ls[i].ending.Some? ==> ls[i].ending.value == e)
  {
    hide Endings;
    var endings := Endings(ls);
    EndingsAre(ls);
    if endings != [] {
      assert endings[0] in endings;
      var i :| 0 <= i < |ls| && ls[i].ending == Some(endings[0]);
      if exists e <- endings :: e != endings[0] {
        var e :| e in endings && e != endings[0];
        var j :| 0 <= j < |ls| && ls[j].ending == Some(e);
        assert TerminatorsDiffer(ls);
      }
    }
  }

  function BuildLineResult(ls: seq<ParsedLine>, totalSize: nat, strategy: ReadStrategy): (r: LineResult)
    ensures AnswerOf(r, ls, totalSize, strategy)
  {
    AggregateMeaning(ls);
    if ls == [] then EmptyResult(strategy, totalSize)
    else LineResult(Texts(ls), ls[0].start, ls[|ls| - 1].end, totalSize, strategy, AggregateLineEndings(Endings(ls)))
  }

  /** There is one result that answers for given lines. */
  lemma AnswerIsUnique(r: LineResult, ls: seq<ParsedLine>, totalSize: nat, strategy: ReadStrategy)
    requires AnswerOf(r, ls, totalSize, strategy)
    ensures r == BuildLineResult(ls, totalSize, strategy)
  {
    hide BuildLineResult;
    var built := BuildLineResult(ls, totalSize, strategy);
    assert r.lines == built.lines;
    if !TerminatorsDiffer(ls) && exists i | 0 <= i < |ls| :: ls[i].ending != None {
      var i :| 0 <= i < |ls| && ls[i].ending != None;
      assert r.lineEnding == ls[i].ending.value == built.lineEnding;
    }
  }

  lemma NoLines(base: nat)
    ensures Lines([], base) == []
  {
  }

  /** Framing just the bytes that `r` says it covers, `r` answers for exactly those lines. */
  predicate Rereads(obj: bytes, r: LineResult) {
    && r.byteOffsetStart <= r.byteOffsetEnd <= |obj|
    && AnswerOf(r, Lines(obj[r.byteOffsetStart..r.byteOffsetEnd], r.byteOffsetStart), |obj|, r.strategy)
  }

  /** Re-reading the byte range a result reports gives its lines and its line ending again. */
  lemma ResultRereads(obj: bytes, i: nat, j: nat, strategy: ReadStrategy)
    requires i <= j <= |Lines(obj, 0)|
    ensures Rereads(obj, BuildLineResult(Lines(obj, 0)[i..j], |obj|, strategy))
  {
    hide LinesFrom, StartOf, EndFrom, Texts, Endings, AggregateLineEndings, AnswerOf;
    var ls := Lines(obj, 0);
    if i == j {
      assert ls[i..j] == [] && obj[0..0] == [];
      NoLines(0);
    } else {
      RereadRun(obj, i, j);
      StartIsOffset(obj, 0, i, 0);
      StartIsOffset(obj, 0, j - 1, 0);
      assert ls[i..j][0] == ls[i] && ls[i..j][j - i - 1] == ls[j - 1];
    }
  }

  /** A head result re-reads. */
  lemma HeadRereads(obj: bytes, n: nat, strategy: ReadStrategy)
    ensures Rereads(obj, BuildLineResult(Take(Lines(obj, 0), n), |obj|, strategy))
  {
    hide BuildLineResult, Lines;
    ResultRereads(obj, 0, Min(n, |Lines(obj, 0)|), strategy);
  }

  /** A tail result re-reads, whether or not it was told the end of the object. */
  lemma TailRereads(obj: bytes, told: bool, n: nat, strategy: ReadStrategy)
    ensures Rereads(obj, BuildLineResult(Last(Usable(obj, 0, told), n), |obj|, strategy))
  {
    hide BuildLineResult, LinesFrom, CompleteFrom, LeftoverFrom;
    var ls, usable := Lines(obj, 0), Usable(obj, 0, told);
    assert usable <= ls by { LinesFromComplete(obj, 0, 0); }
    assert Last(usable, n) == ls[|usable| - Min(n, |usable|)..|usable|];
    ResultRereads(obj, |usable| - Min(n, |usable|), |usable|, strategy);
  }

  /** A middle result re-reads. */
  lemma MidRereads(obj: bytes, n: nat, strategy: ReadStrategy)
    ensures Rereads(obj, BuildLineResult(Take(MidLines(obj), n), |obj|, strategy))
  {
    hide BuildLineResult, Lines, LineHolding;
    var ls, mid := Lines(obj, 0), MidLines(obj);
    var i := MidIsSuffix(obj);
    assert Take(mid, n) == ls[i..i + Min(n, |mid|)];
    ResultRereads(obj, i, i + Min(n, |mid|), strategy);
  }

  lemma MidIsSuffix(obj: bytes) returns (i: nat)
    ensures i <= |Lines(obj, 0)| && MidLines(obj) == Lines(obj, 0)[i..]
  {
    i := 0;
    if obj != [] {
      LineHoldingHolds(obj, 0, |obj| / 2, 0);
      var k := LineHolding(obj, 0, |obj| / 2);
      if Lines(obj, 0)[k].ending != None { i := k + 1; }
    } else {
      NoLines(0);
    }
  }
}
