/**
 The framing of a whole byte string into lines, the simple answer every bounded
 operation is measured against, and the laws that let a window stand in for the whole.
 */
module LineFraming {
  import opened Foundation
  import Utf8

  datatype LineEnding = Lf | CrLf | Cr | Mixed | Unknown

  /** What can end one line. */
  type Terminator = e: LineEnding | e != Mixed && e != Unknown witness Lf

  /** `start` and `end` are object offsets; `end` is past the terminator. */
  datatype ParsedLine = ParsedLine(text: bytes, start: nat, end: nat, ending: Option<Terminator>)

  predicate IsBreak(b: byte) { b == LF || b == CR }

  /** Where the terminator of the line at `p` starts, or the length when it has none. */
  function BreakFrom(s: bytes, p: nat): (i: nat)
    requires p <= |s|
    ensures p <= i <= |s|
    decreases |s| - p
  {
    if p == |s| || IsBreak(s[p]) then p else BreakFrom(s, p + 1)
  }

  /** A line feed right after a carriage return belongs to the same terminator. */
  function TerminatorLength(s: bytes, i: nat): nat
    requires i < |s|
  {
    if s[i] == CR && i + 1 < |s| && s[i + 1] == LF then 2 else 1
  }

  /** Where the line at `p` ends, terminator included, when `s` is all there is. */
  function EndFrom(s: bytes, p: nat): (k: nat)
    requires p < |s|
    ensures p < k <= |s|
  {
    var i := BreakFrom(s, p);
    if i == |s| then |s| else i + TerminatorLength(s, i)
  }

  function EndingAt(s: bytes, i: nat): Option<Terminator>
    requires i <= |s|
  {
    if i == |s| then None
    else if s[i] == LF then Some(Lf)
    else if TerminatorLength(s, i) == 2 then Some(CrLf)
    else Some(Cr)
  }

  /** The line at `p`, when the first byte of `s` sits at object offset `base`. */
  function LineFrom(s: bytes, p: nat, base: nat): ParsedLine
    requires p < |s|
  {
    var i := BreakFrom(s, p);
    ParsedLine(s[p..i], base + p, base + EndFrom(s, p), EndingAt(s, i))
  }

  function LinesFrom(s: bytes, p: nat, base: nat): (ls: seq<ParsedLine>)
    requires p <= |s|
    ensures ls == [] <==> p == |s|
    decreases |s| - p
  {
    if p == |s| then [] else [LineFrom(s, p, base)] + LinesFrom(s, EndFrom(s, p), base)
  }

  /** Every line of `s`. */
  function Lines(s: bytes, base: nat): seq<ParsedLine> {
    LinesFrom(s, 0, base)
  }

  /** The line at `p` is terminated and nothing that may follow `s` can change it. */
  predicate SettledFrom(s: bytes, p: nat)
    requires p <= |s|
  {
    var i := BreakFrom(s, p);
    i < |s| && (s[i] == CR ==> i + 1 < |s|)
  }

  function CompleteFrom(s: bytes, p: nat, base: nat): seq<ParsedLine>
    requires p <= |s|
    decreases |s| - p
  {
    if !SettledFrom(s, p) then []
    else [LineFrom(s, p, base)] + CompleteFrom(s, EndFrom(s, p), base)
  }

  /** The lines that stay as they are whatever follows: a terminal CR is held back. */
  function Complete(s: bytes, base: nat): seq<ParsedLine> {
    CompleteFrom(s, 0, base)
  }

  /** Where `CompleteFrom` stops. */
  function LeftoverFrom(s: bytes, p: nat): (q: nat)
    requires p <= |s|
    ensures p <= q <= |s| && !SettledFrom(s, q)
    decreases |s| - p
  {
    if !SettledFrom(s, p) then p else LeftoverFrom(s, EndFrom(s, p))
  }

  predicate AllText(ls: seq<ParsedLine>) {
    forall l <- ls :: Utf8.FromUtf8(l.text) == Utf8.Valid
  }

  // ---------------------------------------------------------------- terminators

  ghost predicate BreakAt(s: bytes, p: nat, i: nat) {
    p <= i <= |s| && (forall k | p <= k < i :: !IsBreak(s[k])) && (i < |s| ==> IsBreak(s[i]))
  }

  lemma {:induction false} BreakFromFound(s: bytes, p: nat)
    requires p <= |s|
    ensures BreakAt(s, p, BreakFrom(s, p))
    decreases |s| - p
  {
    if p < |s| && !IsBreak(s[p]) { BreakFromFound(s, p + 1); }
  }

  lemma BreakFromIs(s: bytes, p: nat, i: nat)
    requires BreakAt(s, p, i)
    ensures BreakFrom(s, p) == i
  {
    BreakFromFound(s, p);
    assert forall k | p <= k < BreakFrom(s, p) :: !IsBreak(s[k]);
  }

  // ---------------------------------------------------------------- windows

  /** `t` is what `s` holds from `d` on. */
  ghost predicate Window(s: bytes, t: bytes, d: nat) {
    d + |t| <= |s| && forall k | 0 <= k < |t| :: t[k] == s[d + k]
  }

  lemma ConcatWindow(front: bytes, t: bytes)
    ensures Window(front + t, t, |front|)
  {
  }

  lemma {:induction false} BreakInWindow(s: bytes, t: bytes, d: nat, p: nat)
    requires Window(s, t, d) && p <= |t|
    ensures BreakFrom(t, p) < |t| ==> BreakFrom(s, d + p) == d + BreakFrom(t, p)
    ensures BreakFrom(t, p) == |t| ==> BreakFrom(s, d + p) >= d + |t|
    decreases |t| - p
  {
    if p < |t| && !IsBreak(t[p]) { BreakInWindow(s, t, d, p + 1); }
  }

  /** A line that ends inside a window, or is settled in it, is the line of the whole. */
  lemma LineInWindow(s: bytes, t: bytes, d: nat, p: nat, base: nat)
    requires Window(s, t, d) && p < |t|
    requires SettledFrom(t, p) || EndFrom(s, d + p) <= d + |t|
    ensures EndFrom(s, d + p) == d + EndFrom(t, p)
    ensures LineFrom(t, p, base + d) == LineFrom(s, d + p, base)
  {
    BreakInWindow(s, t, d, p);
    var i := BreakFrom(t, p);
    assert t[p..i] == s[d + p..d + i];
  }

  /** Lines settled in a window are lines of the whole, from the same place on. */
  lemma {:induction false} CompleteInWindow(s: bytes, t: bytes, d: nat, p: nat, base: nat)
    requires Window(s, t, d) && p <= |t|
    ensures CompleteFrom(t, p, base + d) <= LinesFrom(s, d + p, base)
    decreases |t| - p
  {
    if SettledFrom(t, p) {
      LineInWindow(s, t, d, p, base);
      CompleteInWindow(s, t, d, EndFrom(t, p), base);
    }
  }

  /** In a window that reaches the end, a line is settled and ends as it does in the whole. */
  lemma LineInSuffix(s: bytes, t: bytes, d: nat, p: nat, base: nat)
    requires Window(s, t, d) && d + |t| == |s| && p <= |t|
    ensures SettledFrom(t, p) <==> SettledFrom(s, d + p)
    ensures p < |t| ==> EndFrom(s, d + p) == d + EndFrom(t, p) && LineFrom(t, p, base + d) == LineFrom(s, d + p, base)
  {
    BreakInWindow(s, t, d, p);
    if p < |t| { LineInWindow(s, t, d, p, base); }
  }

  /** A window that reaches the end frames exactly like the whole from there on. */
  lemma {:induction false} LinesInSuffix(s: bytes, t: bytes, d: nat, p: nat, base: nat)
    requires Window(s, t, d) && d + |t| == |s| && p <= |t|
    ensures LinesFrom(t, p, base + d) == LinesFrom(s, d + p, base)
    ensures CompleteFrom(t, p, base + d) == CompleteFrom(s, d + p, base)
    decreases |t| - p
  {
    hide SettledFrom, EndFrom, LineFrom, BreakFrom;
    LineInSuffix(s, t, d, p, base);
    if p < |t| { LinesInSuffix(s, t, d, EndFrom(t, p), base); }
  }

  /** Lines settled by a front of the object are the object's first lines. */
  lemma CompleteIsStable(s: bytes, t: bytes, base: nat)
    requires t <= s
    ensures Complete(t, base) <= Lines(s, base)
  {
    CompleteInWindow(s, t, 0, 0, base);
  }

  /** What is settled in a front of the bytes is settled in more of them. */
  lemma {:induction false} CompleteGrows(s: bytes, t: bytes, p: nat, base: nat)
    requires t <= s && p <= |t|
    ensures CompleteFrom(t, p, base) <= CompleteFrom(s, p, base)
    decreases |t| - p
  {
    hide SettledFrom, EndFrom, LineFrom, BreakFrom;
    if SettledFrom(t, p) {
      StaysSettled(s, t, p, base);
      CompleteGrows(s, t, EndFrom(t, p), base);
    }
  }

  lemma StaysSettled(s: bytes, t: bytes, p: nat, base: nat)
    requires t <= s && p <= |t| && SettledFrom(t, p)
    ensures SettledFrom(s, p) && EndFrom(s, p) == EndFrom(t, p) && LineFrom(s, p, base) == LineFrom(t, p, base)
  {
    BreakInWindow(s, t, 0, p);
    LineInWindow(s, t, 0, p, base);
  }

  /** The whole framing is the settled lines and at most one more, made of the leftover. */
  lemma {:induction false} LinesFromComplete(s: bytes, p: nat, base: nat)
    requires p <= |s|
    ensures var q := LeftoverFrom(s, p);
      LinesFrom(s, p, base) == CompleteFrom(s, p, base) + (if q == |s| then [] else [LineFrom(s, q, base)])
    decreases |s| - p
  {
    if SettledFrom(s, p) { LinesFromComplete(s, EndFrom(s, p), base); }
  }

  /** Nothing is left over exactly when the bytes end in a line feed, or there are none. */
  lemma {:induction false} LeftoverEmptyIff(s: bytes, p: nat)
    requires p <= |s|
    ensures LeftoverFrom(s, p) == |s| <==> p == |s| || s[|s| - 1] == LF
    decreases |s| - p
  {
    BreakFromFound(s, p);
    if SettledFrom(s, p) { LeftoverEmptyIff(s, EndFrom(s, p)); }
  }

  // ---------------------------------------------------------------- boundaries

  /** A place where a line of `s` starts or `s` ends, told from the two bytes around it. */
  predicate Boundary(s: bytes, q: nat)
    requires q <= |s|
  {
    q == 0 || q == |s| || s[q - 1] == LF || (s[q - 1] == CR && s[q] != LF)
  }

  /** No boundary lies strictly inside a line, and one lies at its end. */
  lemma BoundaryAtEndOnly(s: bytes, p: nat, q: nat)
    requires p < |s| && p < q <= EndFrom(s, p)
    ensures Boundary(s, q) <==> q == EndFrom(s, p)
  {
    BreakFromFound(s, p);
    assert q - 1 < BreakFrom(s, p) ==> !IsBreak(s[q - 1]);
  }

  lemma LineEndsByBoundary(s: bytes, p: nat, q: nat)
    requires p < q <= |s| && Boundary(s, q)
    ensures EndFrom(s, p) <= q
  {
    if q < EndFrom(s, p) { BoundaryAtEndOnly(s, p, q); }
  }

  lemma {:induction false} SplitFrom(s: bytes, t: bytes, p: nat, base: nat)
    requires Window(s, t, 0) && p <= |t| && Boundary(s, |t|)
    ensures LinesFrom(s, p, base) == LinesFrom(t, p, base) + LinesFrom(s, |t|, base)
    decreases |s| - p
  {
    if p < |t| {
      var k := EndFrom(s, p);
      assert k <= |t| && k == EndFrom(t, p) && LineFrom(t, p, base) == LineFrom(s, p, base) by {
        LineEndsByBoundary(s, p, |t|);
        LineInWindow(s, t, 0, p, base);
      }
      SplitFrom(s, t, k, base);
      ConcatAssociates([LineFrom(s, p, base)], LinesFrom(t, k, base), LinesFrom(s, |t|, base));
    }
  }

  /** Framing distributes over a cut at a boundary. */
  lemma SplitAtBoundary(s: bytes, q: nat, base: nat)
    requires q <= |s| && Boundary(s, q)
    ensures Lines(s, base) == Lines(s[..q], base) + Lines(s[q..], base + q)
    ensures Lines(s[q..], base + q) == LinesFrom(s, q, base)
  {
    SplitFrom(s, s[..q], 0, base);
    LinesInSuffix(s, s[q..], q, 0, base);
  }

  lemma CutLine(s: bytes, t: bytes, p: nat)
    requires Window(s, t, 0) && p < |t| < |s| && |t| < EndFrom(s, p)
    ensures EndFrom(t, p) == |t| && EndFrom(s, |t|) == EndFrom(s, p)
  {
    BreakFromFound(s, p);
    BreakFromIs(t, p, Min(BreakFrom(s, p), |t|));
    BreakFromIs(s, |t|, if |t| <= BreakFrom(s, p) then BreakFrom(s, p) else |t|);
  }

  lemma {:induction false} SplitElsewhereFrom(s: bytes, t: bytes, p: nat, base: nat)
    requires Window(s, t, 0) && p < |t| && !Boundary(s, |t|)
    ensures |LinesFrom(t, p, base)| + |LinesFrom(s, |t|, base)| == |LinesFrom(s, p, base)| + 1
    decreases |s| - p
  {
    var k := EndFrom(s, p);
    if |t| < k {
      CutLine(s, t, p);
    } else {
      assert k == EndFrom(t, p) && k < |t| by {
        BoundaryAtEndOnly(s, p, k);
        LineInWindow(s, t, 0, p, base);
      }
      SplitElsewhereFrom(s, t, k, base);
    }
  }

  /** `Lines` splits at line boundaries and only there: any other cut makes one line two. */
  lemma SplitsExactlyAtBoundaries(s: bytes, q: nat, base: nat)
    requires q <= |s|
    ensures Lines(s, base) == Lines(s[..q], base) + Lines(s[q..], base + q) <==> Boundary(s, q)
  {
    if Boundary(s, q) {
      SplitAtBoundary(s, q, base);
    } else {
      SplitElsewhereFrom(s, s[..q], 0, base);
      LinesInSuffix(s, s[q..], q, 0, base);
    }
  }

  // ---------------------------------------------------------------- offsets

  /** How many of the lines start at offset `x` or after it. */
  function StartingFrom(ls: seq<ParsedLine>, x: nat): nat {
    if ls == [] then 0 else (if ls[0].start >= x then 1 else 0) + StartingFrom(ls[1..], x)
  }

  lemma {:induction false} StartingFromSplit(a: seq<ParsedLine>, b: seq<ParsedLine>, x: nat)
    requires forall l <- a :: l.start < x
    requires forall l <- b :: l.start >= x
    ensures StartingFrom(a + b, x) == |b|
  {
    if a != [] {
      assert a[0] in a && (a + b)[1..] == a[1..] + b;
      StartingFromSplit(a[1..], b, x);
    } else if b != [] {
      assert b[0] in b && a + b == b && [] + b[1..] == b[1..];
      StartingFromSplit([], b[1..], x);
    }
  }

  lemma {:induction false} StartsAfter(s: bytes, p: nat, base: nat)
    requires p <= |s|
    ensures forall l <- LinesFrom(s, p, base) :: l.start >= base + p
    decreases |s| - p
  {
    if p < |s| { StartsAfter(s, EndFrom(s, p), base); }
  }

  /** The line that runs over or up to `x` starts before it, and so do all the lines before that one. */
  lemma {:induction false} StartsBefore(s: bytes, t: bytes, p: nat, x: nat)
    requires p <= |t| && t <= s && x < |s| && Boundary(s, p) && Boundary(s, |t|)
    requires |t| == if Boundary(s, x) then x else EndFrom(s, x)
    ensures forall l <- LinesFrom(t, p, 0) :: l.start < x
    decreases |t| - p
  {
    if p < |t| {
      if x < p { BoundaryAtEndOnly(s, x, p); }
      var k := EndFrom(s, p);
      assert k <= |t| && k == EndFrom(t, p) by {
        LineEndsByBoundary(s, p, |t|);
        LineInWindow(s, t, 0, p, 0);
      }
      BoundaryAtEndOnly(s, p, k);
      StartsBefore(s, t, k, x);
    }
  }

  function EndingBytes(e: Option<LineEnding>): bytes {
    match e
    case Some(Lf) => [LF]
    case Some(CrLf) => [CR, LF]
    case Some(Cr) => [CR]
    case _ => []
  }

  /** Where line number `i` from `p` on starts in `s`; the length when there is no such line. */
  function StartOf(s: bytes, p: nat, i: nat): (q: nat)
    requires p <= |s|
    ensures p <= q <= |s|
    decreases |s| - p
  {
    if i == 0 || p == |s| then p else StartOf(s, EndFrom(s, p), i - 1)
  }

  /** Dropping `i` lines is framing from where line `i` starts, which is a boundary. */
  lemma {:induction false} DropLines(s: bytes, p: nat, i: nat, base: nat)
    requires p <= |s| && Boundary(s, p) && i <= |LinesFrom(s, p, base)|
    ensures Boundary(s, StartOf(s, p, i))
    ensures LinesFrom(s, StartOf(s, p, i), base) == LinesFrom(s, p, base)[i..]
    decreases |s| - p
  {
    if i > 0 {
      BoundaryAtEndOnly(s, p, EndFrom(s, p));
      DropLines(s, EndFrom(s, p), i - 1, base);
    }
  }

  /** Lines tile the string: each is the bytes from its start to the next one's. */
  lemma LineIsSlice(s: bytes, p: nat, base: nat)
    requires p < |s|
    ensures var l := LineFrom(s, p, base);
      && s[p..EndFrom(s, p)] == l.text + EndingBytes(l.ending)
      && (l.ending == None <==> EndFrom(s, p) == |s| && !IsBreak(s[|s| - 1]))
      && forall b <- l.text :: !IsBreak(b)
  {
    BreakFromFound(s, p);
    var l, i := LineFrom(s, p, base), BreakFrom(s, p);
    assert s[p..EndFrom(s, p)] == s[p..i] + s[i..EndFrom(s, p)];
    assert forall k | 0 <= k < |l.text| :: l.text[k] == s[p + k];
  }

  lemma {:induction false} StartIsOffset(s: bytes, p: nat, i: nat, base: nat)
    requires p <= |s| && i < |LinesFrom(s, p, base)|
    ensures StartOf(s, p, i) < |s|
    ensures LinesFrom(s, p, base)[i] == LineFrom(s, StartOf(s, p, i), base)
    ensures StartOf(s, p, i + 1) == EndFrom(s, StartOf(s, p, i))
    decreases |s| - p
  {
    if i > 0 { StartIsOffset(s, EndFrom(s, p), i - 1, base); }
  }

  /** Between two places, the second a boundary, the whole frames as the slice alone does. */
  lemma RunFraming(s: bytes, p: nat, q: nat, base: nat)
    requires p <= q <= |s| && Boundary(s, q)
    ensures LinesFrom(s, p, base) == Lines(s[p..q], base + p) + LinesFrom(s, q, base)
  {
    SplitFrom(s, s[..q], p, base);
    LinesInSuffix(s[..q], s[p..q], p, 0, base);
  }

  /** Re-reading the bytes a run of lines came from gives back the same lines. */
  lemma RereadRun(s: bytes, i: nat, j: nat)
    requires i <= j <= |Lines(s, 0)|
    ensures StartOf(s, 0, i) <= StartOf(s, 0, j)
    ensures Lines(s[StartOf(s, 0, i)..StartOf(s, 0, j)], StartOf(s, 0, i)) == Lines(s, 0)[i..j]
  {
    var p, q := StartOf(s, 0, i), StartOf(s, 0, j);
    StartsGrow(s, 0, i, j);
    DropLines(s, 0, i, 0);
    DropLines(s, 0, j, 0);
    RunFraming(s, p, q, 0);
    RunBetween(Lines(s, 0), i, j, Lines(s[p..q], p));
  }

  lemma {:induction false} StartsGrow(s: bytes, p: nat, i: nat, j: nat)
    requires p <= |s| && i <= j
    ensures StartOf(s, p, i) <= StartOf(s, p, j)
    decreases |s| - p
  {
    if 0 < i && p < |s| { StartsGrow(s, EndFrom(s, p), i - 1, j - 1); }
  }

  /** The number of the line that holds byte `m`. */
  function LineHolding(s: bytes, p: nat, m: nat): nat
    requires p <= m < |s|
    decreases |s| - p
  {
    if m < EndFrom(s, p) then 0 else 1 + LineHolding(s, EndFrom(s, p), m)
  }

  /** The line found holds the byte, and its end is the first boundary after the byte. */
  lemma {:induction false} LineHoldingHolds(s: bytes, p: nat, m: nat, base: nat)
    requires p <= m < |s|
    ensures LineHolding(s, p, m) < |LinesFrom(s, p, base)|
    ensures var q := StartOf(s, p, LineHolding(s, p, m));
      && q <= m < EndFrom(s, q)
      && StartOf(s, p, LineHolding(s, p, m) + 1) == EndFrom(s, q)
    decreases |s| - p
  {
    hide EndFrom, LineFrom, BreakFrom;
    if m >= EndFrom(s, p) { LineHoldingHolds(s, EndFrom(s, p), m, base); }
  }

  // ---------------------------------------------------------------- round trip

  function Unframe(ls: seq<ParsedLine>): bytes {
    if ls == [] then [] else ls[0].text + EndingBytes(ls[0].ending) + Unframe(ls[1..])
  }

  lemma UnframeCons(l: ParsedLine, rest: seq<ParsedLine>)
    ensures Unframe([l] + rest) == l.text + EndingBytes(l.ending) + Unframe(rest)
  {
    assert ([l] + rest)[1..] == rest;
  }

  /** Text and terminators concatenate back to the input. */
  lemma {:induction false} UnframeLines(s: bytes, p: nat, base: nat)
    requires p <= |s|
    ensures Unframe(LinesFrom(s, p, base)) == s[p..]
    decreases |s| - p
  {
    if p < |s| {
      LineIsSlice(s, p, base);
      var k := EndFrom(s, p);
      UnframeLines(s, k, base);
      UnframeCons(LineFrom(s, p, base), LinesFrom(s, k, base));
      SlicesJoin(s, p, k);
    }
  }

  /** What a list of lines must look like to be a framing of anything. */
  predicate Canonical(ls: seq<ParsedLine>, at: nat) {
    ls == [] ||
    (var l, rest := ls[0], ls[1..];
     && (forall b <- l.text :: !IsBreak(b))
     && l.start == at && l.end == at + |l.text| + |EndingBytes(l.ending)|
     && (match l.ending
         case None => l.text != [] && rest == []
         case Some(Lf) => true
         case Some(CrLf) => true
         case Some(Cr) => rest != [] ==> rest[0].text != [] || rest[0].ending != Some(Lf)
         case Some(_) => false)
     && Canonical(rest, l.end))
  }

  lemma NoLeadingLf(ls: seq<ParsedLine>, at: nat)
    requires ls != [] && Canonical(ls, at)
    requires ls[0].text != [] || ls[0].ending != Some(Lf)
    ensures Unframe(ls) != [] && Unframe(ls)[0] != LF
  {
    var l := ls[0];
    if l.text != [] {
      assert Unframe(ls)[0] == l.text[0] && l.text[0] in l.text;
    }
  }

  lemma LinesAfterFirst(s: bytes, tail: bytes, at: nat)
    requires s != [] && EndFrom(s, 0) + |tail| == |s| && Window(s, tail, EndFrom(s, 0))
    ensures Lines(s, at) == [LineFrom(s, 0, at)] + Lines(tail, at + EndFrom(s, 0))
  {
    LinesInSuffix(s, tail, EndFrom(s, 0), 0, at);
  }

  lemma LineAtFront(l: ParsedLine, tail: bytes, at: nat)
    requires (forall b <- l.text :: !IsBreak(b)) && l.start == at
    requires l.end == at + |l.text| + |EndingBytes(l.ending)|
    requires match l.ending
      case None => l.text != [] && tail == []
      case Some(Cr) => tail != [] ==> tail[0] != LF
      case Some(e) => e == Lf || e == CrLf
    ensures var s := l.text + EndingBytes(l.ending) + tail;
      s != [] && EndFrom(s, 0) == l.end - at && LineFrom(s, 0, at) == l
  {
    var s, i := l.text + EndingBytes(l.ending) + tail, |l.text|;
    assert forall j | 0 <= j < i :: s[j] == l.text[j] && l.text[j] in l.text;
    BreakFromIs(s, 0, i);
    assert s[0..i] == l.text;
  }

  /** A string that opens with a line's text and terminator has that line first. */
  lemma LeadingLine(l: ParsedLine, tail: bytes, at: nat)
    requires (forall b <- l.text :: !IsBreak(b)) && l.start == at
    requires l.end == at + |l.text| + |EndingBytes(l.ending)|
    requires match l.ending
      case None => l.text != [] && tail == []
      case Some(Cr) => tail != [] ==> tail[0] != LF
      case Some(e) => e == Lf || e == CrLf
    ensures Lines(l.text + EndingBytes(l.ending) + tail, at) == [l] + Lines(tail, l.end)
  {
    LineAtFront(l, tail, at);
    ConcatWindow(l.text + EndingBytes(l.ending), tail);
    LinesAfterFirst(l.text + EndingBytes(l.ending) + tail, tail, at);
  }

  /** `Lines` is the only framing: a canonical list is the framing of its own bytes. */
  lemma {:induction false} LinesUnframe(ls: seq<ParsedLine>, at: nat)
    requires Canonical(ls, at)
    ensures Lines(Unframe(ls), at) == ls
  {
    if ls != [] {
      var l, rest := ls[0], ls[1..];
      LinesUnframe(rest, l.end);
      if rest != [] && l.ending == Some(Cr) { NoLeadingLf(rest, l.end); }
      LeadingLine(l, Unframe(rest), at);
    }
  }

  // ---------------------------------------------------------------- text

  /** From a character boundary on, the lines of well-formed text are well-formed. */
  lemma {:induction false} LinesOfText(s: bytes, p: nat, base: nat)
    requires p <= |s| && Utf8.FromUtf8(s[p..]) == Utf8.Valid
    ensures AllText(LinesFrom(s, p, base))
    decreases |s| - p
  {
    if p < |s| {
      var i, k := BreakFrom(s, p), EndFrom(s, p);
      BreakFromFound(s, p);
      assert s[p..] == s[p..i] + s[i..];
      Utf8.SplitBeforeAscii(s[p..i], s[i..]);
      TextAfterBoundary(s, p, k);
      LinesOfText(s, k, base);
    }
  }

  /** After the end of a line of well-formed text comes well-formed text. */
  lemma TextAfterBoundary(s: bytes, p: nat, k: nat)
    requires p <= k <= |s| && Utf8.FromUtf8(s[p..]) == Utf8.Valid
    requires p < k && Boundary(s, k)
    ensures Utf8.FromUtf8(s[k..]) == Utf8.Valid
  {
    if k < |s| {
      assert s[p..] == s[p..k] + s[k..];
      Utf8.SplitAfterAscii(s[p..k], s[k..]);
    } else {
      assert s[k..] == [];
    }
  }

  lemma TerminatorIsText(e: Option<LineEnding>)
    ensures Utf8.FromUtf8(EndingBytes(e)) == Utf8.Valid
  {
    var lf, cr, both: bytes := [LF], [CR], [CR, LF];
    assert both[1..] == lf && lf[1..] == [] && cr[1..] == [];
    assert Utf8.FromUtf8(lf) == Utf8.Valid && Utf8.FromUtf8(cr) == Utf8.Valid;
    assert Utf8.FromUtf8(both) == Utf8.Valid;
  }

  /** Bytes whose lines are all well-formed text are well-formed text. */
  lemma {:induction false} TextOfLines(s: bytes, p: nat, base: nat)
    requires p <= |s| && AllText(LinesFrom(s, p, base))
    ensures Utf8.FromUtf8(s[p..]) == Utf8.Valid
    decreases |s| - p
  {
    if p == |s| {
      assert s[p..] == [];
    } else {
      hide EndFrom, LineFrom, EndingBytes;
      var l, k := LineFrom(s, p, base), EndFrom(s, p);
      var ls := LinesFrom(s, k, base);
      assert LinesFrom(s, p, base) == [l] + ls;
      AllTextParts(l, ls);
      TextOfLines(s, k, base);
      TextThenRest(s, p, base);
    }
  }

  lemma AllTextParts(l: ParsedLine, ls: seq<ParsedLine>)
    requires AllText([l] + ls)
    ensures Utf8.FromUtf8(l.text) == Utf8.Valid && AllText(ls)
  {
    assert l in [l] + ls && forall x <- ls :: x in [l] + ls;
  }

  lemma TextThenRest(s: bytes, p: nat, base: nat)
    requires p < |s| && Utf8.FromUtf8(LineFrom(s, p, base).text) == Utf8.Valid
    requires Utf8.FromUtf8(s[EndFrom(s, p)..]) == Utf8.Valid
    ensures Utf8.FromUtf8(s[p..]) == Utf8.Valid
  {
    hide EndFrom, LineFrom, EndingBytes, Utf8.FromUtf8;
    var l, k := LineFrom(s, p, base), EndFrom(s, p);
    var ending := EndingBytes(l.ending);
    LineIsSlice(s, p, base);
    SlicesJoin(s, p, k);
    ConcatAssociates(l.text, ending, s[k..]);
    Utf8.ValidPrefix(l.text, ending + s[k..]);
    TerminatorIsText(l.ending);
    Utf8.ValidPrefix(ending, s[k..]);
  }

  function TextLength(ls: seq<ParsedLine>): nat {
    if ls == [] then 0 else |ls[0].text| + TextLength(ls[1..])
  }

  lemma {:induction false} TextFits(s: bytes, p: nat, base: nat)
    requires p <= |s|
    ensures TextLength(LinesFrom(s, p, base)) <= |s| - p
    decreases |s| - p
  {
    if p < |s| {
      TextFits(s, EndFrom(s, p), base);
      assert LinesFrom(s, p, base)[1..] == LinesFrom(s, EndFrom(s, p), base);
    }
  }

  lemma {:induction false} TextLengthConcat(a: seq<ParsedLine>, b: seq<ParsedLine>)
    ensures TextLength(a + b) == TextLength(a) + TextLength(b)
  {
    if a == [] {
      assert a + b == b;
    } else {
      assert (a + b)[1..] == a[1..] + b;
      TextLengthConcat(a[1..], b);
    }
  }
}
