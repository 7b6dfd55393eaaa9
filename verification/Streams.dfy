/**
 Byte streams as scripts of what their reader will do, and the two wrappers that hold a
 stream to its declared length. A wrapper over a script behaves as another script.
 */
module Streams {
  import opened Foundation

  datatype IoKind = UnexpectedEof | InvalidData | OtherIo

  type chunk = s: bytes | s != [] witness [0]

  /** What the reader does next; running out of events is end of file. */
  datatype ReadEvent = Pending | Chunk(data: chunk) | Fail(kind: IoKind)

  type Script = seq<ReadEvent>

  datatype Poll = NotReady | Ready(data: bytes) | Failed(kind: IoKind)

  datatype Terminal = CleanEof | Failure(kind: IoKind)

  /** One poll with room for `cap` bytes, and what is left of the script. */
  function PollScript(s: Script, cap: nat): (Poll, Script) {
    if cap == 0 || s == [] then (Ready([]), s)
    else match s[0]
      case Pending => (NotReady, s[1..])
      case Chunk(b) =>
        if |b| <= cap then (Ready(b), s[1..]) else (Ready(b[..cap]), [Chunk(b[cap..])] + s[1..])
      case Fail(k) => (Failed(k), s[1..])
  }

  /** The bytes a stream delivers before its first terminal event. */
  function Data(s: Script): bytes {
    if s == [] then []
    else match s[0]
      case Pending => Data(s[1..])
      case Chunk(b) => b + Data(s[1..])
      case Fail(_) => []
  }

  /** How a stream first ends. */
  function Ending(s: Script): Terminal {
    if s == [] then CleanEof
    else match s[0]
      case Fail(k) => Failure(k)
      case _ => Ending(s[1..])
  }

  /** Bounds the polls until the first terminal event. */
  function Weight(s: Script): nat {
    if s == [] then 0
    else (match s[0] case Chunk(b) => |b| case _ => 1) + Weight(s[1..])
  }

  lemma PollStep(s: Script, cap: nat)
    requires cap > 0
    ensures var (p, rest) := PollScript(s, cap);
      && (p.NotReady? ==> Data(rest) == Data(s) && Ending(rest) == Ending(s) && Weight(rest) < Weight(s))
      && (p.Ready? ==> |p.data| <= cap && Data(s) == p.data + Data(rest) && Ending(rest) == Ending(s))
      && (p.Ready? && p.data != [] ==> Weight(rest) < Weight(s))
      && (p == Ready([]) <==> s == [])
      && (p.Failed? ==> Data(s) == [] && Ending(s) == Failure(p.kind))
  {
    if s != [] && s[0].Chunk? && |s[0].data| > cap {
      var b, rest := s[0].data, s[1..];
      assert ([Chunk(b[cap..])] + rest)[1..] == rest;
      assert b == b[..cap] + b[cap..];
      ConcatAssociates(b[..cap], b[cap..], Data(rest));
    }
  }

  /** Delivered bytes and the terminal outcome, if one is reached, of a sequence of polls. */
  function Polled(s: Script, caps: seq<nat>): (bytes, Option<Terminal>)
    decreases |caps|
  {
    if caps == [] then ([], None)
    else
      var (p, rest) := PollScript(s, caps[0]);
      match p
      case Failed(k) => ([], Some(Failure(k)))
      case NotReady => Polled(rest, caps[1..])
      case Ready(b) =>
        if b == [] then ([], Some(CleanEof))
        else var (more, end) := Polled(rest, caps[1..]); (b + more, end)
  }

  /** Whatever room each poll offers: a front of the data, all of it at the terminal event. */
  lemma {:induction false} PolledDelivers(s: Script, caps: seq<nat>)
    requires forall c <- caps :: c > 0
    ensures var (got, end) := Polled(s, caps);
      && got <= Data(s)
      && (end.Some? ==> got == Data(s) && end.value == Ending(s))
      && (|caps| > Weight(s) ==> end.Some?)
    decreases |caps|
  {
    if caps != [] {
      assert caps[0] in caps && forall c <- caps[1..] :: c in caps;
      PollStep(s, caps[0]);
      PolledDelivers(PollScript(s, caps[0]).1, caps[1..]);
    }
  }

  /** A stream cut to exactly `n` bytes: short and long sources end in an error. */
  function Declared(s: Script, n: nat): Script {
    if s == [] then (if n == 0 then [] else [Fail(UnexpectedEof)])
    else match s[0]
      case Pending => [Pending] + Declared(s[1..], n)
      case Fail(k) => [Fail(k)]
      case Chunk(b) =>
        if n == 0 then [Fail(InvalidData)]
        else if |b| <= n then [s[0]] + Declared(s[1..], n - |b|)
        else [Chunk(b[..n]), Fail(InvalidData)]
  }

  lemma DataCons(e: ReadEvent, rest: Script)
    ensures Data([e] + rest) ==
        if e.Fail? then [] else if e.Chunk? then e.data + Data(rest) else Data(rest)
    ensures Ending([e] + rest) == if e.Fail? then Failure(e.kind) else Ending(rest)
  {
    assert ([e] + rest)[1..] == rest;
  }

  lemma TakeAcross(a: bytes, b: bytes, n: nat)
    ensures Take(a + b, n) == if |a| <= n then a + Take(b, n - |a|) else a[..n]
  {
  }

  lemma {:induction false} DeclaredDelivers(s: Script, n: nat)
    ensures Data(Declared(s, n)) == Take(Data(s), n)
    ensures Ending(Declared(s, n)) ==
        if |Data(s)| > n then Failure(InvalidData)
        else if |Data(s)| < n && Ending(s) == CleanEof then Failure(UnexpectedEof)
        else Ending(s)
  {
    if s != [] {
      match s[0]
      case Pending =>
        DeclaredDelivers(s[1..], n);
        DataCons(Pending, Declared(s[1..], n));
      case Fail(k) =>
      case Chunk(b) =>
        if 0 < |b| <= n {
          DeclaredDelivers(s[1..], n - |b|);
          DataCons(s[0], Declared(s[1..], n - |b|));
          TakeAcross(b, Data(s[1..]), n);
        } else if n > 0 {
          DataCons(Chunk(b[..n]), [Fail(InvalidData)]);
          assert [Chunk(b[..n])] + [Fail(InvalidData)] == Declared(s, n);
          TakeAcross(b, Data(s[1..]), n);
        }
    }
  }

  /** Clean end of file exactly when the source has exactly the declared bytes. */
  lemma {:induction false} DeclaredOutcome(s: Script, n: nat)
    ensures Data(Declared(s, n)) == Take(Data(s), n)
    ensures Ending(Declared(s, n)) ==
        if |Data(s)| > n then Failure(InvalidData)
        else if |Data(s)| < n && Ending(s) == CleanEof then Failure(UnexpectedEof)
        else Ending(s)
    ensures Ending(Declared(s, n)) == CleanEof <==> Ending(s) == CleanEof && |Data(s)| == n
  {
    hide Data, Ending, Declared;
    DeclaredDelivers(s, n);
  }

  /** An owned reader; `script` is what remains of its behaviour. */
  class Body {
    var script: Script

    constructor (script: Script)
      ensures this.script == script
    {
      this.script := script;
    }

    method PollRead(cap: nat) returns (p: Poll)
      modifies this
      ensures (p, script) == PollScript(old(script), cap)
    {
      var (q, rest) := PollScript(script, cap);
      p, script := q, rest;
    }
  }

  /** What is left to see of a length-checked stream. */
  function VisibleThrough(inner: Script, remaining: Option<nat>, checkedEnd: bool): Script {
    match remaining
    case None => inner
    case Some(n) => if n == 0 && checkedEnd then [] else Declared(inner, n)
  }

  /** What a length check with `n` bytes to go makes of one poll of its source. */
  function CheckedPoll(n: nat, p: Poll, rest: Script): (Poll, Script) {
    match p
    case NotReady => (NotReady, Declared(rest, n))
    case Failed(k) => (Failed(k), [])
    case Ready(b) =>
      if n == 0 then (if b == [] then Ready([]) else Failed(InvalidData), [])
      else if b == [] then (Failed(UnexpectedEof), [])
      else (Ready(b), Declared(rest, if |b| <= n then n - |b| else 0))
  }

  /** One step of a length check is one step of the declared script. */
  lemma DeclaredStep(s: Script, n: nat, cap: nat)
    requires cap > 0
    ensures var (p, rest) := PollScript(s, if n == 0 then 1 else Min(cap, n));
      CheckedPoll(n, p, rest) == PollScript(Declared(s, n), cap)
  {
    assert forall k: IoKind :: [Fail(k)][1..] == [];
    if s != [] && s[0].Pending? {
      assert Declared(s, n)[1..] == Declared(s[1..], n);
    } else if n > 0 && s != [] && s[0].Chunk? {
      DeclaredChunk(s[0].data, s[1..], n, Min(cap, n), cap);
      assert [s[0]] + s[1..] == s;
    }
  }

  /** A chunk then more: what a poll with `room` leaves, and what the declared length shows of it. */
  lemma DeclaredChunk(b: chunk, rest: Script, n: nat, room: nat, cap: nat)
    requires n > 0 && cap > 0 && room == Min(cap, n)
    ensures var s := [Chunk(b)] + rest;
      var (p, left) := PollScript(s, room);
      p.Ready? && 0 < |p.data| <= n && CheckedPoll(n, p, left) == PollScript(Declared(s, n), cap)
  {
    var s := [Chunk(b)] + rest;
    assert s[1..] == rest;
    if |b| <= room {
      assert ([s[0]] + Declared(rest, n - |b|))[1..] == Declared(rest, n - |b|);
    } else {
      DeclaredSplitChunk(b, rest, n, room, cap);
    }
  }

  lemma DeclaredSplitChunk(b: chunk, rest: Script, n: nat, room: nat, cap: nat)
    requires 0 < room < |b| && room == Min(cap, n)
    ensures var s := [Chunk(b)] + rest;
      PollScript(Declared(s, n), cap) == (Ready(b[..room]), Declared([Chunk(b[room..])] + rest, n - room))
  {
    var s, left := [Chunk(b)] + rest, [Chunk(b[room..])] + rest;
    assert s[1..] == rest && left[1..] == rest;
    if |b| <= n {
      var d := [Chunk(b)] + Declared(rest, n - |b|);
      assert Declared(s, n) == d && d[1..] == Declared(rest, n - |b|);
    } else {
      var d := [Chunk(b[..n]), Fail(InvalidData)];
      assert Declared(s, n) == d && d[1..] == [Fail(InvalidData)];
      assert b[..n][..room] == b[..room];
      if room < n {
        assert b[..n][room..] == b[room..][..n - room];
        assert [Chunk(b[..n][room..])] + [Fail(InvalidData)] == [Chunk(b[..n][room..]), Fail(InvalidData)];
      }
    }
  }

  /** `DeclaredLengthRead`: exposes truncation and overlong bodies of a declared length. */
  class DeclaredLengthRead {
    const reader: Body
    var remaining: Option<nat>
    var checkedEnd: bool

    constructor (reader: Body, remaining: Option<nat>)
      ensures Valid() && this.reader == reader && this.remaining == remaining && !checkedEnd
      ensures Visible() == VisibleThrough(reader.script, remaining, false)
    {
      this.reader, this.remaining, this.checkedEnd := reader, remaining, false;
    }

    ghost predicate Valid()
      reads this
    {
      checkedEnd ==> remaining == Some(0)
    }

    ghost function Visible(): Script
      reads this, reader
    {
      VisibleThrough(reader.script, remaining, checkedEnd)
    }

    /** A poll with room is a poll of the declared script; the count falls by what is delivered. */
    method PollRead(cap: nat) returns (p: Poll)
      requires Valid()
      modifies this, reader
      ensures Valid()
      ensures cap > 0 ==> p == PollScript(old(Visible()), cap).0
      ensures cap > 0 && !p.Failed? ==> Visible() == PollScript(old(Visible()), cap).1
      ensures old(remaining).None? ==> remaining == None
      ensures old(remaining).Some? ==>
        (remaining.Some? && remaining.value + (if p.Ready? then |p.data| else 0) == old(remaining).value)
      ensures old(remaining) == Some(0) && p == Ready([]) ==> checkedEnd
      ensures old(checkedEnd) ==> p == Ready([]) && reader.script == old(reader.script) && checkedEnd
      ensures cap == 0 && old(remaining).Some? && old(remaining).value > 0 ==>
        (p == Ready([]) && Visible() == old(Visible()))
    {
      if remaining == None {
        p := reader.PollRead(cap);
        return;
      }
      var n := remaining.value;
      if cap > 0 { DeclaredStep(reader.script, n, cap); }
      if n == 0 {
        if checkedEnd { return Ready([]); }
        var probe := reader.PollRead(1);
        match probe {
          case NotReady => return NotReady;
          case Failed(k) => return Failed(k);
          case Ready(b) =>
            if b != [] { return Failed(InvalidData); }
            checkedEnd := true;
            return Ready([]);
        }
      }
      var capacity := Min(cap, n);
      if capacity == 0 { return Ready([]); }
      p := reader.PollRead(capacity);
      if p.Ready? {
        if p.data == [] { return Failed(UnexpectedEof); }
        PollStep(old(reader.script), capacity);
        remaining := Some(n - |p.data|);
      }
    }
  }

  const FRAME_LIMIT: nat := 8 * 1024

  datatype Frame = NoFrameYet | EndOfFrames | DataFrame(data: bytes) | ErrorFrame(kind: IoKind)

  function FrameOf(p: Poll): Frame {
    match p
    case NotReady => NoFrameYet
    case Failed(k) => ErrorFrame(k)
    case Ready(b) => if b == [] then EndOfFrames else DataFrame(b)
  }

  /** `AsyncReadBody`: the upload body; unlike the reader above, its end is sticky. */
  class AsyncReadBody {
    const reader: Body
    var finished: bool
    var remaining: nat

    constructor (reader: Body, contentLength: nat)
      ensures this.reader == reader && Visible() == Declared(reader.script, contentLength)
      ensures !finished && remaining == contentLength
    {
      this.reader, this.finished, this.remaining := reader, false, contentLength;
    }

    ghost function Visible(): Script
      reads this, reader
    {
      if finished then [] else Declared(reader.script, remaining)
    }

    /** Each frame is a poll of the declared script with room for one frame. */
    method PollFrame() returns (f: Frame)
      modifies this, reader
      ensures var (p, rest) := PollScript(old(Visible()), FRAME_LIMIT);
        f == FrameOf(p) && Visible() == rest
      ensures remaining + (if f.DataFrame? then |f.data| else 0) == old(remaining)
      ensures f.DataFrame? ==> 1 <= |f.data| <= 8192
      ensures finished <==> f.EndOfFrames? || f.ErrorFrame?
    {
      if finished { return EndOfFrames; }
      DeclaredStep(reader.script, remaining, FRAME_LIMIT);
      if remaining == 0 {
        var p := reader.PollRead(1);
        match p {
          case NotReady => return NoFrameYet;
          case Failed(k) => finished := true; return ErrorFrame(k);
          case Ready(b) =>
            finished := true;
            return if b == [] then EndOfFrames else ErrorFrame(InvalidData);
        }
      }
      var p := reader.PollRead(Min(remaining, FRAME_LIMIT));
      match p {
        case NotReady => return NoFrameYet;
        case Failed(k) => finished := true; return ErrorFrame(k);
        case Ready(b) =>
          if b == [] { finished := true; return ErrorFrame(UnexpectedEof); }
          remaining := remaining - |b|;
          return DataFrame(b);
      }
    }
  }

  // ---------------------------------------------------------------- awaited reads

  /** A read that is awaited: polls until the reader is ready. */
  function Awaited(s: Script, cap: nat): (r: (Poll, Script))
    requires cap > 0
    ensures !r.0.NotReady?
  {
    if s != [] && s[0].Pending? then Awaited(s[1..], cap) else PollScript(s, cap)
  }

  lemma {:induction false} AwaitedStep(s: Script, cap: nat)
    requires cap > 0
    ensures var (p, rest) := Awaited(s, cap);
      && (p.Ready? ==> |p.data| <= cap && Data(s) == p.data + Data(rest) && Ending(rest) == Ending(s))
      && (p.Ready? && p.data == [] ==> Data(s) == [] && Ending(s) == CleanEof)
      && (p.Ready? && p.data != [] ==> Weight(rest) < Weight(s))
      && (p.Failed? ==> Data(s) == [] && Ending(s) == Failure(p.kind))
  {
    PollStep(s, cap);
    if s != [] && s[0].Pending? { AwaitedStep(s[1..], cap); }
  }

  method Await(body: Body, cap: nat) returns (p: Poll)
    requires cap > 0
    modifies body
    ensures (p, body.script) == Awaited(old(body.script), cap)
  {
    p := NotReady;
    while p.NotReady?
      invariant p.NotReady? ==> Awaited(body.script, cap) == Awaited(old(body.script), cap)
      invariant !p.NotReady? ==> (p, body.script) == Awaited(old(body.script), cap)
      decreases if p.NotReady? then |body.script| + 1 else 0
    {
      p := body.PollRead(cap);
    }
  }

  // ---------------------------------------------------------------- copy to a pipe

  const COPY_BUFFER: nat := 8192

  /** The write end of a pipe; write number `k` fails when `fails(k)`. */
  class Pipe {
    const fails: nat -> bool
    var writes: nat
    var written: bytes

    constructor (fails: nat -> bool)
      ensures this.fails == fails && writes == 0 && written == []
    {
      this.fails, this.writes, this.written := fails, 0, [];
    }

    method WriteAll(data: bytes) returns (ok: bool)
      modifies this
      ensures ok == !fails(old(writes)) && writes == old(writes) + 1
      ensures written == old(written) + (if ok then data else [])
    {
      ok := !fails(writes);
      writes := writes + 1;
      if ok { written := written + data; }
    }
  }

  /** The bytes a copy must move: all the stream has, or the expected number of them. */
  function Wanted(s: Script, expected: Option<nat>): bytes {
    match expected case None => Data(s) case Some(k) => Take(Data(s), k)
  }

  /** How a copy ends when the pipe takes every write: overlong streams are not noticed. */
  function CopyOutcome(s: Script, expected: Option<nat>): Terminal {
    match expected
    case Some(k) =>
      if |Data(s)| >= k then CleanEof else if Ending(s) == CleanEof then Failure(UnexpectedEof) else Ending(s)
    case None => Ending(s)
  }

  lemma CopyStep(s: Script, b: bytes, rest: Script, expected: Option<nat>)
    requires Data(s) == b + Data(rest) && Ending(s) == Ending(rest)
    requires expected.Some? ==> |b| <= expected.value
    ensures var left := if expected.Some? then Some((expected.value - |b|) as nat) else None;
      && Wanted(s, expected) == b + Wanted(rest, left)
      && CopyOutcome(s, expected) == CopyOutcome(rest, left)
  {
    if expected.Some? { TakeAcross(b, Data(rest), expected.value); }
  }

  lemma CopyStops(s: Script, expected: Option<nat>)
    ensures expected == Some(0) ==> Wanted(s, expected) == [] && CopyOutcome(s, expected) == CleanEof
    ensures Data(s) == [] && expected != Some(0) ==>
      (&& Wanted(s, expected) == []
       && CopyOutcome(s, expected) ==
          if Ending(s) == CleanEof && expected.Some? then Failure(UnexpectedEof) else Ending(s))
  {
  }

  /** Moves the wanted bytes in order; it stops at the expected count without looking further. */
  method CopyStreamToPipe(stream: Body, pipe: Pipe, expected: Option<nat>) returns (r: Terminal)
    modifies stream, pipe
    ensures old(pipe.written) <= pipe.written <= old(pipe.written) + Wanted(old(stream.script), expected)
    ensures old(pipe.writes) <= pipe.writes
    ensures (forall k | old(pipe.writes) <= k < pipe.writes :: !pipe.fails(k)) ==>
        && pipe.written == old(pipe.written) + Wanted(old(stream.script), expected)
        && r == CopyOutcome(old(stream.script), expected)
    ensures (exists k | old(pipe.writes) <= k < pipe.writes :: pipe.fails(k)) ==>
        r == Failure(OtherIo) && pipe.fails(pipe.writes - 1)
    ensures r == CleanEof ==> pipe.written == old(pipe.written) + Wanted(old(stream.script), expected)
    ensures r == CleanEof ==> CopyOutcome(old(stream.script), expected) == CleanEof
  {
    hide Data, Ending, Weight, PollScript, Awaited, Wanted, CopyOutcome;
    ghost var moved: bytes := [];
    var remaining: Option<nat> := expected;
    while true
      invariant pipe.written == old(pipe.written) + moved
      invariant old(pipe.writes) <= pipe.writes && forall k | old(pipe.writes) <= k < pipe.writes :: !pipe.fails(k)
      invariant moved + Wanted(stream.script, remaining) == Wanted(old(stream.script), expected)
      invariant CopyOutcome(stream.script, remaining) == CopyOutcome(old(stream.script), expected)
      invariant expected.Some? == remaining.Some?
      decreases Weight(stream.script)
    {
      var limit := match remaining case None => COPY_BUFFER case Some(k) => Min(k, COPY_BUFFER);
      CopyStops(stream.script, remaining);
      if limit == 0 { return CleanEof; }
      ghost var s := stream.script;
      AwaitedStep(s, limit);
      var p := Await(stream, limit);
      if p.Failed? { return Failure(p.kind); }
      if p.data == [] {
        return if remaining.Some? then Failure(UnexpectedEof) else CleanEof;
      }
      CopyStep(s, p.data, stream.script, remaining);
      var ok := pipe.WriteAll(p.data);
      if !ok { return Failure(OtherIo); }
      moved := moved + p.data;
      if remaining.Some? {
        remaining := Some((remaining.value - |p.data|) as nat);
        if remaining.value == 0 {
          CopyStops(stream.script, remaining);
          return CleanEof;
        }
      }
    }
  }
}
