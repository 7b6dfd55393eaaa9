/** What a window, read under a given end-of-file flag, has to do with the whole object. */
module Readings {
  import opened Foundation
  import opened LineFraming
  import opened Parsers
  import opened Windows
  import Utf8

  /** A window's usable lines are a front of its lines, short of them by at most the leftover. */
  lemma UsableIsFront(s: bytes, base: nat, eof: bool)
    ensures Usable(s, base, eof) <= Lines(s, base)
  {
    hide LinesFrom, CompleteFrom;
    LinesFromComplete(s, 0, base);
  }

  lemma TextOfFront(ls: seq<ParsedLine>, part: seq<ParsedLine>, i: nat)
    requires i + |part| <= |ls| && part == ls[i..i + |part|]
    ensures TextLength(part) <= TextLength(ls)
    ensures AllText(ls) ==> AllText(part)
  {
    hide TextLength;
    var before, after := ls[..i], ls[i + |part|..];
    assert ls == before + part + after;
    assert forall l <- part :: l in ls;
    TextLengthConcat(before + part, after);
    TextLengthConcat(before, part);
  }

  /** Lines handed out of a window never have more text than the window has bytes. */
  lemma OutputFits(s: bytes, base: nat, eof: bool, n: nat)
    ensures TextLength(Take(Usable(s, base, eof), n)) <= |s|
    ensures TextLength(Kept(Usable(s, base, eof), n)) <= |s|
    ensures AllText(Usable(s, base, eof)) ==> AllText(Kept(Usable(s, base, eof), n))
  {
    hide LinesFrom, CompleteFrom, Usable, TextLength, AllText;
    UsableIsFront(s, base, eof);
    TextFits(s, 0, base);
    var ls, u := Lines(s, base), Usable(s, base, eof);
    TextOfFront(ls, Take(u, n), 0);
    TextOfFront(ls, Kept(u, n), |u| - |Kept(u, n)|);
    TextOfFront(u, Kept(u, n), |u| - |Kept(u, n)|);
  }

  /** Reading text from a boundary on yields text. */
  lemma ReadingIsText(obj: bytes, a: nat, b: nat, eof: bool, n: nat)
    requires TextObject(obj) && a <= b <= |obj| && Boundary(obj, a) && (eof ==> b == |obj|)
    ensures AcceptsAsText(obj[a..b])
    ensures AllText(Usable(obj[a..b], a, eof)) && AllText(Take(Usable(obj[a..b], a, eof), n))
  {
    hide LinesFrom, CompleteFrom, Lines, Complete, AllText, TextLength, AcceptsAsText, TextObject;
    TextWindowAccepted(obj, a, b);
    var u := Usable(obj[a..b], a, eof);
    assert AllText(LinesFrom(obj, a, 0)) by { TextFrom(obj, a); }
    assert u <= LinesFrom(obj, a, 0) by {
      UsableInObject(obj, a, b, eof);
    }
    TextOfFront(LinesFrom(obj, a, 0), u, 0);
    TextOfFront(u, Take(u, n), 0);
  }

  lemma TextFrom(obj: bytes, a: nat)
    requires TextObject(obj) && a <= |obj| && Boundary(obj, a)
    ensures AllText(LinesFrom(obj, a, 0))
  {
    Utf8.ValidIffWellFormed(obj);
    assert obj[0..] == obj;
    if a > 0 { TextAfterBoundary(obj, 0, a); }
    LinesOfText(obj, a, 0);
  }

  /** The usable lines of a window are the object's lines from its start on. */
  lemma UsableInObject(obj: bytes, a: nat, b: nat, eof: bool)
    requires a <= b <= |obj| && (eof ==> b == |obj|)
    ensures Usable(obj[a..b], a, eof) <= LinesFrom(obj, a, 0)
    ensures eof ==> Usable(obj[a..b], a, eof) == LinesFrom(obj, a, 0)
  {
    hide LinesFrom, CompleteFrom;
    CompleteInWindow(obj, obj[a..b], a, 0, 0);
    if eof { LinesInSuffix(obj, obj[a..b], a, 0, 0); }
  }

  /** Head: enough lines, or the whole object, make the answer exact. */
  lemma HeadReading(obj: bytes, k: nat, eof: bool, n: nat)
    requires k <= |obj| && (eof ==> k == |obj|)
    requires eof || |Take(Usable(obj[..k], 0, eof), n)| == n
    ensures Take(Usable(obj[..k], 0, eof), n) == Take(Lines(obj, 0), n)
  {
    hide LinesFrom, CompleteFrom, Usable;
    UsableInObject(obj, 0, k, eof);
    assert obj[0..k] == obj[..k];
    if !eof { TakePrefix(Usable(obj[..k], 0, eof), Lines(obj, 0), n); }
  }

  /** Settled lines all end before the leftover starts. */
  lemma {:induction false} CompleteEnds(s: bytes, p: nat)
    requires p <= |s|
    ensures forall l <- CompleteFrom(s, p, 0) :: l.end <= LeftoverFrom(s, p)
    decreases |s| - p
  {
    if SettledFrom(s, p) {
      CompleteEnds(s, EndFrom(s, p));
    }
  }

  /** Without the end-of-file proof, the last line is lost unless a line feed closes it. */
  lemma LastLineLost(obj: bytes, q: nat, n: nat)
    requires n > 0 && q < |obj| && obj[|obj| - 1] != LF
    ensures var settled, whole := Last(CompleteFrom(obj, q, 0), n), Last(LinesFrom(obj, q, 0), n);
      && whole != [] && whole[|whole| - 1].end == |obj|
      && (settled != [] ==> settled[|settled| - 1].end < |obj|)
  {
    hide LinesFrom, CompleteFrom;
    LinesFromComplete(obj, q, 0);
    LeftoverEmptyIff(obj, q);
    CompleteEnds(obj, q);
    var settled, whole := Last(CompleteFrom(obj, q, 0), n), Last(LinesFrom(obj, q, 0), n);
    assert whole[|whole| - 1] == LineFrom(obj, LeftoverFrom(obj, q), 0);
    UnsettledEnds(obj, LeftoverFrom(obj, q));
    assert settled != [] ==> settled[|settled| - 1] in CompleteFrom(obj, q, 0);
  }

  lemma UnsettledEnds(s: bytes, q: nat)
    requires q < |s| && !SettledFrom(s, q)
    ensures EndFrom(s, q) == |s|
  {
  }

  /** The aligned start of a suffix window, as the tail computes it. */
  function TailAligned(obj: bytes, start: nat): (a: nat)
    requires start <= |obj|
  {
    if start == 0 || start == |obj| || Boundary(obj, start) then 0
    else match Alignment(obj[start..], 0) case Some(a) => a case None => |obj| - start
  }

  lemma DifferentEnds(a: seq<ParsedLine>, b: seq<ParsedLine>, size: nat, strategy: ReadStrategy)
    requires b != [] && b[|b| - 1].end == size && size > 0 && (a != [] ==> a[|a| - 1].end < size)
    ensures BuildLineResult(a, size, strategy) != BuildLineResult(b, size, strategy)
  {
    hide Texts, Endings, AggregateLineEndings;
  }

  /** Behind a boundary inside the object, the settled lines are a suffix of all settled lines. */
  lemma CompleteSplits(obj: bytes, q: nat)
    requires q < |obj| && Boundary(obj, q)
    ensures Complete(obj, 0) == Lines(obj[..q], 0) + CompleteFrom(obj, q, 0)
  {
    hide LinesFrom, CompleteFrom, Boundary, LeftoverFrom;
    SuffixLines(obj, q);
    LinesFromComplete(obj, 0, 0);
    LinesFromComplete(obj, q, 0);
    LeftoverEmptyIff(obj, 0);
    LeftoverEmptyIff(obj, q);
    var front, rest, whole := Lines(obj[..q], 0), CompleteFrom(obj, q, 0), Complete(obj, 0);
    if obj[|obj| - 1] == LF {
      assert whole + [] == whole && rest + [] == rest;
    } else {
      var x, y := LineFrom(obj, LeftoverFrom(obj, 0), 0), LineFrom(obj, LeftoverFrom(obj, q), 0);
      ConcatAssociates(front, rest, [y]);
      DropLast(whole, x, front + rest, y);
    }
  }

  lemma DropLast<T>(a: seq<T>, x: T, b: seq<T>, y: T)
    requires a + [x] == b + [y]
    ensures a == b
  {
    assert |a + [x]| == |b + [y]|;
    assert a == (a + [x])[..|a|] && b == (b + [y])[..|b|];
  }

  /** Tail: the kept lines of an aligned suffix are the last usable lines of the whole object. */
  lemma TailReading(obj: bytes, start: nat, eof: bool, n: nat)
    requires obj != [] && start < |obj| && n > 0
    requires var a := TailAligned(obj, start);
      a <= |obj| - start && (start == 0 || |Kept(Usable(obj[start + a..], start + a, eof), n)| >= n)
    ensures var a := TailAligned(obj, start);
      Kept(Usable(obj[start + a..], start + a, eof), n) == Last(Usable(obj, 0, eof), n)
  {
    hide LinesFrom, CompleteFrom, Boundary, TailAligned, Lines, Complete, Last;
    var q := start + TailAligned(obj, start);
    TailAlignedIsBoundary(obj, start);
    SuffixLines(obj, q);
    NothingFrom(obj, q);
    LastIsShort(LinesFrom(obj, q, 0), n);
    LastIsShort(CompleteFrom(obj, q, 0), n);
    if q < |obj| {
      CompleteSplits(obj, q);
      NoLines(0);
      LastOfSuffix(Lines(obj[..q], 0), if eof then LinesFrom(obj, q, 0) else CompleteFrom(obj, q, 0), n);
    }
  }

  /** The last usable lines are the object's last lines exactly when the end is told, or a line feed. */
  lemma UntoldEnd(obj: bytes, told: bool, n: nat, strategy: ReadStrategy)
    requires n > 0
    ensures BuildLineResult(Last(Usable(obj, 0, told), n), |obj|, strategy)
            == BuildLineResult(Last(Lines(obj, 0), n), |obj|, strategy)
            <==> obj == [] || obj[|obj| - 1] == LF || told
  {
    hide LinesFrom, CompleteFrom, LeftoverFrom, BuildLineResult, Last;
    LinesFromComplete(obj, 0, 0);
    LeftoverEmptyIff(obj, 0);
    assert Complete(obj, 0) + [] == Complete(obj, 0);
    if obj != [] && obj[|obj| - 1] != LF && !told {
      LastLineLost(obj, 0, n);
      DifferentEnds(Last(Complete(obj, 0), n), Last(Lines(obj, 0), n), |obj|, strategy);
    }
  }

  /** "a LF b" without its end told: the settled part is "a", the whole "a" and "b". */
  lemma SettledPartOfThreeBytes()
    ensures var obj := [97, LF, 98];
      && Complete(obj, 0) == [ParsedLine([97], 0, 2, Some(Lf))]
      && Lines(obj, 0) == [ParsedLine([97], 0, 2, Some(Lf)), ParsedLine([98], 2, 3, None)]
  {
    var obj: bytes := [97, LF, 98];
    BreakFromIs(obj, 0, 1);
    BreakFromIs(obj, 2, 3);
    assert LineFrom(obj, 0, 0) == ParsedLine([97], 0, 2, Some(Lf));
    assert LineFrom(obj, 2, 0) == ParsedLine([98], 2, 3, None);
    assert CompleteFrom(obj, 0, 0) == [LineFrom(obj, 0, 0)] + CompleteFrom(obj, 2, 0);
    assert LinesFrom(obj, 0, 0) == [LineFrom(obj, 0, 0)] + LinesFrom(obj, 2, 0);
    assert LinesFrom(obj, 2, 0) == [LineFrom(obj, 2, 0)] + LinesFrom(obj, 3, 0);
  }

  lemma StartIsBoundary(s: bytes)
    ensures Boundary(s, 0)
  {
  }

  lemma TailAlignedIs(obj: bytes, start: nat)
    requires 0 < start < |obj|
    ensures start + TailAligned(obj, start) == if Boundary(obj, start) then start else EndFrom(obj, start)
  {
    SliceAt(obj, start, 0);
  }

  /** The usable lines of an aligned suffix are as many as start in the window. */
  lemma TailCount(obj: bytes, start: nat, told: bool)
    requires 0 < start < |obj|
    ensures start + TailAligned(obj, start) <= |obj|
    ensures var q := start + TailAligned(obj, start);
      |Usable(obj[q..], q, told)| == StartingFrom(Usable(obj, 0, told), start)
  {
    hide LinesFrom, CompleteFrom, Boundary, TailAligned, StartingFrom, EndFrom, LeftoverFrom;
    TailAlignedIsBoundary(obj, start);
    TailAlignedIs(obj, start);
    var q := start + TailAligned(obj, start);
    StartIsBoundary(obj);
    StartsBefore(obj, obj[..q], 0, start);
    StartsAfter(obj, q, 0);
    SuffixLines(obj, q);
    NothingFrom(obj, q);
    var front := Lines(obj[..q], 0);
    if q < |obj| {
      LinesFromComplete(obj, q, 0);
      CompleteSplits(obj, q);
      StartingFromSplit(front, if told then LinesFrom(obj, q, 0) else CompleteFrom(obj, q, 0), start);
    } else {
      var usable := Usable(obj, 0, told);
      LinesFromComplete(obj, 0, 0);
      assert front + [] == front && usable + [] == usable;
      assert usable <= front && forall l <- usable :: l in front;
      StartingFromSplit(usable, [], start);
    }
  }

  lemma TakeIsShort<T>(s: seq<T>, n: nat)
    ensures |Take(s, n)| == Min(n, |s|)
  {
  }

  lemma KeptIsShort(ls: seq<ParsedLine>, n: nat)
    requires n > 0
    ensures |Kept(ls, n)| == Min(n, |ls|)
  {
  }

  lemma LastIsShort(ls: seq<ParsedLine>, n: nat)
    ensures |Last(ls, n)| == Min(n, |ls|)
  {
  }

  lemma NothingFrom(obj: bytes, q: nat)
    requires q <= |obj|
    ensures q == |obj| ==> CompleteFrom(obj, q, 0) == [] && LinesFrom(obj, q, 0) == []
  {
  }

  lemma TailAlignedIsBoundary(obj: bytes, start: nat)
    requires start < |obj|
    ensures var a := TailAligned(obj, start); start + a <= |obj| && Boundary(obj, start + a)
    ensures start == 0 ==> TailAligned(obj, start) == 0
  {
    if start > 0 { AlignedStartIsBoundary(obj, start); }
  }

  /** Where the middle answer starts in its window. */
  function MidAligned(t: bytes, m: nat, whole: bool): (a: nat)
    ensures a <= |t|
  {
    match Alignment(t, m) case Some(a) => a case None => if whole then 0 else |t|
  }

  lemma MidAlignedIs(t: bytes, m: nat, whole: bool)
    ensures MidAligned(t, m, whole) == match Alignment(t, m) case Some(a) => a case None => if whole then 0 else |t|
  {
  }

  lemma MidAlignedIsBoundary(obj: bytes)
    requires obj != []
    ensures Boundary(obj, MidAligned(obj, |obj| / 2, true))
  {
    BoundaryAtEndOnly(obj, |obj| / 2, EndFrom(obj, |obj| / 2));
  }

  /** Middle: enough settled lines, or the whole object, make the answer exact. */
  lemma MidReading(obj: bytes, start: nat, k: nat, eof: bool, n: nat)
    requires obj != [] && start <= |obj| / 2 && start + k <= |obj| && n > 0
    requires eof ==> start == 0 && k == |obj|
    requires var t := obj[start..start + k];
      var a := MidAligned(t, |obj| / 2 - start, eof && start == 0);
      eof || |Take(Usable(t[a..], start + a, eof), n)| == n
    ensures var t := obj[start..start + k];
      var a := MidAligned(t, |obj| / 2 - start, eof && start == 0);
      Take(Usable(t[a..], start + a, eof), n) == Take(MidLines(obj), n)
  {
    hide LinesFrom, CompleteFrom, MidLines, Boundary, BreakFrom, EndFrom;
    var t := obj[start..start + k];
    var a := MidAligned(t, |obj| / 2 - start, eof && start == 0);
    if eof {
      assert t == obj;
      MidAlignedIsBoundary(obj);
      SuffixLines(obj, a);
      MidLinesByPosition(obj);
    } else {
      NoneComplete(t[a..], start + a);
      MidInWindow(obj, t, start, n);
    }
  }

  /** The width of a middle window is even, so a window narrower than the object stops short of its end. */
  lemma NarrowMidStopsShort(size: nat, width: nat)
    requires width % 2 == 0 && size > width
    ensures 0 <= size / 2 - width / 2 && size / 2 - width / 2 + width < size
  {
  }
}
