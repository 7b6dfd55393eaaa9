/** The framing loops: each is measured against `Lines` or `Complete` of its whole input. */
module Parsers {
  import opened Foundation
  import opened LineFraming
  import Utf8

  datatype ParseError = BinaryContent

  type Parsed = Result<seq<ParsedLine>, ParseError>

  /** Framed lines are handed out only when all of them are text. */
  function Checked(ls: seq<ParsedLine>): Parsed {
    if AllText(ls) then Ok(ls) else Err(BinaryContent)
  }

  /** The lines a read may use: all of them at end of file, the settled ones otherwise. */
  function Usable(s: bytes, base: nat, eof: bool): seq<ParsedLine> {
    if eof then Lines(s, base) else Complete(s, base)
  }

  /** The last `maximum` lines; a queue of capacity zero never evicts. */
  function Kept(ls: seq<ParsedLine>, maximum: nat): seq<ParsedLine> {
    if maximum == 0 then ls else Last(ls, maximum)
  }

  lemma ScannedTo(s: bytes, index: nat)
    requires index < |s| && (forall k | 0 <= k < index :: !IsBreak(s[k])) && IsBreak(s[index])
    ensures BreakFrom(s, 0) == index && s[0..index] == s[..index]
  {
    BreakFromIs(s, 0, index);
  }

  /** The first line and the bytes it takes; a terminal CR waits unless `eof`. */
  method ExtractFirstCompleteLine(s: bytes, base: nat, eof: bool)
    returns (r: Result<Option<(ParsedLine, nat)>, ParseError>)
    requires base + |s| <= U64_MAX
    ensures !SettledFrom(s, 0) && (!eof || BreakFrom(s, 0) == |s|) ==> r == Ok(None)
    ensures SettledFrom(s, 0) || (eof && BreakFrom(s, 0) < |s|) ==>
        r == if Utf8.FromUtf8(LineFrom(s, 0, base).text) == Utf8.Valid
             then Ok(Some((LineFrom(s, 0, base), EndFrom(s, 0))))
             else Err(BinaryContent)
  {
    var index := 0;
    while index < |s|
      invariant index <= |s| && forall k | 0 <= k < index :: !IsBreak(s[k])
    {
      if s[index] == LF {
        ScannedTo(s, index);
        if Utf8.FromUtf8(s[..index]) != Utf8.Valid { return Err(BinaryContent); }
        return Ok(Some((ParsedLine(s[..index], base, base + index + 1, Some(Lf)), index + 1)));
      } else if s[index] == CR {
        ScannedTo(s, index);
        if index + 1 == |s| && !eof { return Ok(None); }
        var ending, consumed := Cr, 1;
        if index + 1 < |s| && s[index + 1] == LF { ending, consumed := CrLf, 2; }
        if Utf8.FromUtf8(s[..index]) != Utf8.Valid { return Err(BinaryContent); }
        return Ok(Some((ParsedLine(s[..index], base, base + index + consumed, Some(ending)), index + consumed)));
      }
      index := index + 1;
    }
    BreakFromIs(s, 0, |s|);
    return Ok(None);
  }

  /** The unread rest of `s`, taken as its own slice, has the lines `s` has there. */
  lemma SliceAt(s: bytes, cursor: nat, base: nat)
    requires cursor <= |s|
    ensures var t := s[cursor..];
      && LinesFrom(s, cursor, base) == Lines(t, base + cursor)
      && CompleteFrom(s, cursor, base) == Complete(t, base + cursor)
      && (SettledFrom(t, 0) <==> SettledFrom(s, cursor))
      && BreakFrom(s, cursor) == cursor + BreakFrom(t, 0)
      && (t != [] ==> LineFrom(t, 0, base + cursor) == LineFrom(s, cursor, base)
                      && cursor + EndFrom(t, 0) == EndFrom(s, cursor))
  {
    var t := s[cursor..];
    LinesInSuffix(s, t, cursor, 0, base);
    BreakInWindow(s, t, cursor, 0);
    if t != [] { LineInWindow(s, t, cursor, 0, base); }
  }

  /** Extraction at `cursor`, said of the whole string. */
  method ExtractAt(s: bytes, cursor: nat, base: nat, eof: bool)
    returns (r: Result<Option<(ParsedLine, nat)>, ParseError>)
    requires cursor < |s| && base + |s| <= U64_MAX
    ensures !SettledFrom(s, cursor) && (!eof || BreakFrom(s, cursor) == |s|) ==> r == Ok(None)
    ensures SettledFrom(s, cursor) || (eof && BreakFrom(s, cursor) < |s|) ==>
        r == if Utf8.FromUtf8(LineFrom(s, cursor, base).text) == Utf8.Valid
             then Ok(Some((LineFrom(s, cursor, base), EndFrom(s, cursor) - cursor)))
             else Err(BinaryContent)
  {
    SliceAt(s, cursor, base);
    r := ExtractFirstCompleteLine(s[cursor..], base + cursor, eof);
  }

  /** The loops' invariant: `seen` is what the bytes before `cursor` frame to, and all of it is text. */
  ghost predicate Progress(s: bytes, base: nat, seen: seq<ParsedLine>, cursor: nat) {
    && cursor <= |s| && AllText(seen) && |seen| <= cursor
    && Lines(s, base) == seen + LinesFrom(s, cursor, base)
    && Complete(s, base) == seen + CompleteFrom(s, cursor, base)
  }

  lemma Start(s: bytes, base: nat)
    ensures Progress(s, base, [], 0)
  {
  }

  lemma Advance(s: bytes, base: nat, seen: seq<ParsedLine>, cursor: nat)
    requires Progress(s, base, seen, cursor) && cursor < |s| && SettledFrom(s, cursor)
    requires Utf8.FromUtf8(LineFrom(s, cursor, base).text) == Utf8.Valid
    ensures Progress(s, base, seen + [LineFrom(s, cursor, base)], EndFrom(s, cursor))
  {
    var l, k := LineFrom(s, cursor, base), EndFrom(s, cursor);
    ConcatAssociates(seen, [l], LinesFrom(s, k, base));
    ConcatAssociates(seen, [l], CompleteFrom(s, k, base));
  }

  lemma IllFormedNext(ls: seq<ParsedLine>, seen: seq<ParsedLine>, rest: seq<ParsedLine>)
    requires ls == seen + rest && rest != [] && Utf8.FromUtf8(rest[0].text) != Utf8.Valid
    ensures !AllText(ls) && forall n: nat | n > |seen| :: !AllText(Take(ls, n))
  {
    assert ls[|seen|] == rest[0] && rest[0] in ls;
    forall n: nat | n > |seen| ensures !AllText(Take(ls, n)) {
      assert Take(ls, n)[|seen|] == rest[0];
    }
  }

  /** A settled line that is not text fails every reading that gets to it. */
  lemma Refused(s: bytes, base: nat, seen: seq<ParsedLine>, cursor: nat)
    requires Progress(s, base, seen, cursor) && cursor < |s| && SettledFrom(s, cursor)
    requires Utf8.FromUtf8(LineFrom(s, cursor, base).text) != Utf8.Valid
    ensures !AllText(Lines(s, base)) && !AllText(Complete(s, base))
    ensures forall eof, n: nat | n > |seen| :: !AllText(Take(Usable(s, base, eof), n))
  {
    IllFormedNext(Lines(s, base), seen, LinesFrom(s, cursor, base));
    IllFormedNext(Complete(s, base), seen, CompleteFrom(s, cursor, base));
  }

  /** Where no settled line is left, at most one line is, and only the end of file frames it. */
  lemma AtLeftover(s: bytes, base: nat, seen: seq<ParsedLine>, cursor: nat)
    requires Progress(s, base, seen, cursor) && !SettledFrom(s, cursor)
    ensures AllText(seen) && Complete(s, base) == seen
    ensures cursor == |s| ==> Lines(s, base) == seen
    ensures cursor < |s| ==>
      && EndFrom(s, cursor) == |s|
      && Lines(s, base) == seen + [LineFrom(s, cursor, base)]
      && (BreakFrom(s, cursor) == |s| ==>
            LineFrom(s, cursor, base) == ParsedLine(s[cursor..], base + cursor, base + |s|, None))
  {
  }

  lemma TakeSeen(seen: seq<ParsedLine>, rest: seq<ParsedLine>, n: nat)
    ensures |seen| == n || (rest == [] && |seen| <= n) ==> Take(seen + rest, n) == seen
    ensures |rest| == 1 && |seen| < n ==> Take(seen + rest, n) == seen + rest
  {
  }

  lemma ConsumedAll(s: bytes, base: nat, seen: seq<ParsedLine>, cursor: nat)
    requires Progress(s, base, seen, cursor)
    ensures cursor == |s| ==> !SettledFrom(s, cursor)
  {
  }

  /** What has been seen when the forward loop stops. */
  lemma Stopped(s: bytes, base: nat, seen: seq<ParsedLine>, cursor: nat, maximum: nat)
    requires Progress(s, base, seen, cursor) && |seen| <= maximum
    requires |seen| == maximum || !SettledFrom(s, cursor)
    ensures AllText(seen) && Take(Complete(s, base), maximum) == seen
    ensures |seen| == maximum || cursor == |s| ==> Take(Lines(s, base), maximum) == seen
  {
    TakeSeen(seen, LinesFrom(s, cursor, base), maximum);
    TakeSeen(seen, CompleteFrom(s, cursor, base), maximum);
  }

  /** The last, unsettled line, framed because the file ends there. */
  method ExtractTrailing(s: bytes, base: nat, ghost seen: seq<ParsedLine>, cursor: nat)
    returns (r: Result<ParsedLine, ParseError>)
    requires Progress(s, base, seen, cursor) && cursor < |s| && !SettledFrom(s, cursor)
    requires base + |s| <= U64_MAX
    ensures r.Ok? ==> r.value == LineFrom(s, cursor, base) && AllText(Lines(s, base))
                      && Lines(s, base) == seen + [r.value]
    ensures r.Ok? ==> AllText(seen + [r.value])
    ensures r.Ok? ==> forall n: nat | n > |seen| :: Take(Lines(s, base), n) == seen + [r.value]
    ensures r.Err? ==> r.error == BinaryContent && !AllText(Lines(s, base))
    ensures r.Err? ==> forall n: nat | n > |seen| :: !AllText(Take(Lines(s, base), n))
  {
    AtLeftover(s, base, seen, cursor);
    if Utf8.FromUtf8(LineFrom(s, cursor, base).text) != Utf8.Valid {
      IllFormedNext(Lines(s, base), seen, [LineFrom(s, cursor, base)]);
    }
    var extracted := ExtractAt(s, cursor, base, true);
    if extracted.Err? { return Err(extracted.error); }
    if extracted.value.Some? { return Ok(extracted.value.value.0); }
    if Utf8.FromUtf8(s[cursor..]) != Utf8.Valid { return Err(BinaryContent); }
    return Ok(ParsedLine(s[cursor..], base + cursor, base + |s|, None));
  }

  /** The first `maximum` lines, from the front. */
  method ParseLinesUpTo(s: bytes, base: nat, includeTrailing: bool, maximum: nat) returns (r: Parsed)
    requires base + |s| <= U64_MAX
    ensures r == Checked(Take(Usable(s, base, includeTrailing), maximum))
  {
    hide Progress, Lines, Complete, LinesFrom, CompleteFrom, BreakFrom, EndFrom, LineFrom, SettledFrom, AllText, Take;
    var lines: seq<ParsedLine> := [];
    var cursor := 0;
    Start(s, base);
    while cursor < |s| && |lines| < maximum
      invariant Progress(s, base, lines, cursor) && cursor <= |s| && |lines| <= maximum
    {
      var extracted := ExtractAt(s, cursor, base, false);
      if extracted.Err? {
        Refused(s, base, lines, cursor);
        return Err(extracted.error);
      }
      if extracted.value == None { break; }
      Advance(s, base, lines, cursor);
      lines, cursor := lines + [extracted.value.value.0], cursor + extracted.value.value.1;
    }
    ConsumedAll(s, base, lines, cursor);
    Stopped(s, base, lines, cursor, maximum);
    if includeTrailing && |lines| < maximum && cursor < |s| {
      var last := ExtractTrailing(s, base, lines, cursor);
      if last.Err? { return Err(last.error); }
      lines := lines + [last.value];
    }
    return Ok(lines);
  }

  lemma KeptNone(maximum: nat)
    ensures Kept([], maximum) == []
  {
  }

  lemma KeptPush(seen: seq<ParsedLine>, l: ParsedLine, maximum: nat)
    ensures var q := Kept(seen, maximum);
      Kept(seen + [l], maximum) == if |q| == maximum && q != [] then q[1..] + [l] else q + [l]
  {
  }

  /** The last `maximum` lines, kept in a queue that evicts its oldest entry. */
  method ParseTailLinesBounded(s: bytes, base: nat, includeTrailing: bool, maximum: nat) returns (r: Parsed)
    requires base + |s| <= U64_MAX
    ensures var usable := Usable(s, base, includeTrailing);
      r == if AllText(usable) then Ok(Kept(usable, maximum)) else Err(BinaryContent)
  {
    hide Progress, Lines, Complete, LinesFrom, CompleteFrom, BreakFrom, EndFrom, LineFrom, SettledFrom, AllText, Kept;
    var lines: seq<ParsedLine> := [];
    ghost var seen: seq<ParsedLine> := [];
    var cursor := 0;
    Start(s, base);
    KeptNone(maximum);
    while cursor < |s|
      invariant Progress(s, base, seen, cursor) && cursor <= |s| && lines == Kept(seen, maximum)
    {
      var extracted := ExtractAt(s, cursor, base, false);
      if extracted.Err? {
        Refused(s, base, seen, cursor);
        return Err(extracted.error);
      }
      if extracted.value == None { break; }
      Advance(s, base, seen, cursor);
      KeptPush(seen, LineFrom(s, cursor, base), maximum);
      seen := seen + [LineFrom(s, cursor, base)];
      cursor := cursor + extracted.value.value.1;
      if |lines| == maximum && lines != [] { lines := lines[1..]; }
      lines := lines + [extracted.value.value.0];
    }
    ConsumedAll(s, base, seen, cursor);
    AtLeftover(s, base, seen, cursor);
    if includeTrailing && cursor < |s| {
      var last := ExtractTrailing(s, base, seen, cursor);
      if last.Err? { return Err(last.error); }
      KeptPush(seen, last.value, maximum);
      if |lines| == maximum && lines != [] { lines := lines[1..]; }
      lines := lines + [last.value];
    }
    return Ok(lines);
  }

  /** The bytes of the first complete line, without building it. */
  method CompleteLineConsumed(s: bytes, eof: bool) returns (r: Result<Option<nat>, ParseError>)
    ensures !SettledFrom(s, 0) && (!eof || BreakFrom(s, 0) == |s|) ==> r == Ok(None)
    ensures SettledFrom(s, 0) || (eof && BreakFrom(s, 0) < |s|) ==>
        r == if Utf8.FromUtf8(LineFrom(s, 0, 0).text) == Utf8.Valid then Ok(Some(EndFrom(s, 0))) else Err(BinaryContent)
  {
    for index := 0 to |s|
      invariant forall k | 0 <= k < index :: !IsBreak(s[k])
    {
      var consumed: nat;
      if s[index] == LF {
        consumed := index + 1;
      } else if s[index] == CR && index + 1 < |s| && s[index + 1] == LF {
        consumed := index + 2;
      } else if s[index] == CR && (index + 1 < |s| || eof) {
        consumed := index + 1;
      } else if s[index] == CR {
        ScannedTo(s, index);
        return Ok(None);
      } else {
        continue;
      }
      ScannedTo(s, index);
      if Utf8.FromUtf8(s[..index]) != Utf8.Valid { return Err(BinaryContent); }
      return Ok(Some(consumed));
    }
    BreakFromIs(s, 0, |s|);
    return Ok(None);
  }

  /** The number of lines; the last one is validated in place, terminal CR and all. */
  method CountLinesBounded(s: bytes) returns (r: Result<u64, ParseError>)
    requires |s| <= U64_MAX
    ensures r == if AllText(Lines(s, 0)) then Ok(|Lines(s, 0)|) else Err(BinaryContent)
  {
    hide Progress, Lines, LinesFrom, CompleteFrom, BreakFrom, EndFrom, LineFrom, SettledFrom, AllText;
    Start(s, 0);
    var cursor, count := 0, 0;
    ghost var seen: seq<ParsedLine> := [];
    while cursor < |s|
      invariant Progress(s, 0, seen, cursor) && cursor <= |s| && count == |seen| <= cursor
    {
      var step := ConsumedAt(s, cursor);
      if step.Err? {
        Refused(s, 0, seen, cursor);
        return Err(step.error);
      }
      if step.value == None { break; }
      Advance(s, 0, seen, cursor);
      seen := seen + [LineFrom(s, cursor, 0)];
      cursor := cursor + step.value.value;
      count := count + 1;
    }
    ConsumedAll(s, 0, seen, cursor);
    AtLeftover(s, 0, seen, cursor);
    if cursor < |s| {
      LeftoverText(s, seen, cursor);
      if Utf8.FromUtf8(s[cursor..]) != Utf8.Valid { return Err(BinaryContent); }
      count := count + 1;
    }
    return Ok(count);
  }

  method ConsumedAt(s: bytes, cursor: nat) returns (r: Result<Option<nat>, ParseError>)
    requires cursor < |s|
    ensures !SettledFrom(s, cursor) ==> r == Ok(None)
    ensures SettledFrom(s, cursor) ==>
        r == if Utf8.FromUtf8(LineFrom(s, cursor, 0).text) == Utf8.Valid
             then Ok(Some(EndFrom(s, cursor) - cursor)) else Err(BinaryContent)
  {
    SliceAt(s, cursor, 0);
    TextAnyBase(s[cursor..], 0, cursor);
    r := CompleteLineConsumed(s[cursor..], false);
  }

  lemma TextAnyBase(s: bytes, a: nat, b: nat)
    ensures s != [] ==> LineFrom(s, 0, a).text == LineFrom(s, 0, b).text
  {
  }

  /** The leftover is validated with its terminal CR; that decides the text without it. */
  lemma LeftoverText(s: bytes, seen: seq<ParsedLine>, cursor: nat)
    requires Progress(s, 0, seen, cursor) && cursor < |s| && !SettledFrom(s, cursor)
    ensures Utf8.FromUtf8(s[cursor..]) == Utf8.Valid <==> AllText(Lines(s, 0))
  {
    var line := LineFrom(s, cursor, 0);
    AtLeftover(s, 0, seen, cursor);
    assert line in Lines(s, 0);
    if BreakFrom(s, cursor) < |s| { TextBeforeCr(line.text, s[cursor..]); }
  }

  lemma TextBeforeCr(text: bytes, whole: bytes)
    requires whole == text + [CR]
    ensures Utf8.FromUtf8(whole) == Utf8.Valid <==> Utf8.FromUtf8(text) == Utf8.Valid
  {
    if Utf8.FromUtf8(text) == Utf8.Valid {
      Utf8.ValidPrefix(text, [CR]);
      assert [CR][1..] == [];
    }
    if Utf8.FromUtf8(whole) == Utf8.Valid { Utf8.SplitBeforeAscii(text, [CR]); }
  }

  lemma {:induction false} LinesAreFew(s: bytes, p: nat)
    requires p <= |s|
    ensures |LinesFrom(s, p, 0)| <= |s| - p
    decreases |s| - p
  {
    if p < |s| { LinesAreFew(s, EndFrom(s, p)); }
  }

  /** With room for every line, parsing gives all that counting counts, and the tail is its end. */
  lemma CountAgreesWithParse(s: bytes, n: nat, m: nat)
    requires n >= |s| && m > 0
    ensures Checked(Take(Usable(s, 0, true), n)) ==
            if AllText(Lines(s, 0)) then Ok(Lines(s, 0)) else Err(BinaryContent)
    ensures Kept(Usable(s, 0, true), m) == Last(Take(Usable(s, 0, true), n), m)
  {
    LinesAreFew(s, 0);
    assert Lines(s, 0)[..|Lines(s, 0)|] == Lines(s, 0);
  }
}
