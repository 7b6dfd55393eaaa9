# storageprims: bounded inspection, guarded reads, streams and their neighbours

A Dafny 4.11 model of the parts of storageprims whose correctness cannot be seen in one function at a
time, with proofs. `dafny verify dfyconfig.toml` checks all of it.

The centre is bounded line inspection: head, tail, middle, count and preview questions about an object
that is never read whole. The simple answer is `Lines(object)`, the framing of the whole object into
LF, CRLF and CR lines; the operations read a few windows, align them, and either give exactly that
answer or refuse. Below them lies the guarded-read protocol, with other writers acting between calls;
beside them stand the length-checking streams, the stream registry of the foreign-function surface,
key projection under a root, delimiter pages and the anchor installer.

## Layout

| file | what it holds |
|---|---|
| `Foundation.dfy`, `Utf8.dfy` | bytes, machine words; the well-formed byte sequences of section 4 of RFC 3629 and the scanner that decides them |
| `LineFraming.dfy` | `Lines`, `Complete` (what no later byte can change), boundaries, offsets, the round trip |
| `Parsers.dfy`, `Windows.dfy`, `Readings.dfy` | the framing loops, window alignment and binary refusal, and what a window proves about the whole object |
| `Streams.dfy` | readers as scripts of chunks, pauses and failures; the two length-checking wrappers; the copy into a pipe |
| `Source.dfy`, `Ledger.dfy`, `GuardedRange.dfy`, `Inspection.dfy` | selections and receipts, the ledger, one guarded range read, the five operations |
| `ContentRange.dfy`, `S3Responses.dfy`, `Snapshot.dfy`, `FfiRange.dfy` | what the S3 provider lets through, the store under adversarial writers, whole operations over it |
| `UntoldTotals.dfy` | a server that leaves totals untold, and the tail it gets wrong |
| `Registry.dfy` | the stream registry and all its interleavings |
| `Prefixes.dfy`, `DelimiterPages.dfy` | keys under a root, validation and projection of delimiter pages |
| `Anchors.dfy` | the two-file installer under a failing command, a signal, or both |

## Conventions

- Rust strings and byte slices are sequences of bytes; `usize` is 64 bits; offsets and lengths are
  bounded by `U64_MAX` where the source's words bound them, and each checked or saturating operation
  is written out.
- A provider is an arbitrary function of the number of the call and the request. That covers every
  provider that adapts to what it has been asked, with any writers acting between calls. An HTTP
  server is the same, one level down.
- The clock is the function `expires`: whether the deadline is found past at the k-th time it is
  consulted. A timeout around an await is one such consultation.
- A reader is a finite script of chunks, pauses (`Pending`) and failures, of any sizes. Every theorem
  is for every script, so for every chunking.
- A ghost argument `obj` is the object the provider is honest about, if there is one. Claims that need
  honesty say `Honest`; claims of success also say `Serves`. Claims without either hold for every
  provider whatsoever: the ledger's, the unreachable limits', the well-formedness of every line.
- Writers are assumed disciplined: a version id names one version, and a strong tag changes with the
  bytes. Every answer of the server is assumed true of some version stored by then, which may be a
  replaced or deleted one; where observations are also assumed current, so is the version concluded.
- Errors keep the distinctions callers can act on; message texts and provider error codes are dropped.

## Findings

- Tail without `force_stream` never asks whether its last window was proven to end the object. When the
  response leaves the total unknown (`bytes a-b/*`), the last line is lost unless a line feed closes
  the object. `Inspection.TailLinesWithOptions` says what is given and when it is right, in terms known
  before the call: always with `force_stream`, always from a provider that tells totals with its
  ranges, and from one that never does exactly when the object is empty or ends in a line feed.
  `UntoldTotals.LastLineOfThreeBytes` calls the operation over the S3 provider and a server that answers
  `bytes 0-2/*`, and gets "a" for the last line of "a LF b".
- The Content-Range parser takes one plus sign in front of each number, which the grammar of section
  14.4 of RFC 9110 does not have: `bytes +0-+2/+3` is accepted. `ContentRange.PlusIsTheOnlyExcess`
  shows that the accepted values without a plus sign are exactly the grammar's spellings of satisfiable
  ranges. The range unit is accepted in lower case only, although the standard makes it case-insensitive.
- A preview that asks for exactly the payload budget is accepted as a request and always refused on a
  non-empty object: the byte that proves the end needs room too. `Inspection.PreviewBytes` states
  success as an equivalence with `length < budget.payloadBytes`.
- An empty object is reported with strategy `RangeBackward` or `RangeMidpoint` even under
  `force_stream`; `TailStrategy` and `MidStrategy` follow the code.
- The copy into a pipe stops at the expected count without looking for more, so it does not notice an
  overlong stream; `CopyOutcome` says so. The bytes in the pipe are right all the same
  (`FfiRange.GetRangeToPipe`).
- Stream ids repeat after 2^64 allocations, and an insert can then overwrite a live entry;
  `Registry.InsertsSafeExactlyBelowWrap` gives the bound as an equivalence.

## Model

| member | source | states |
|---|---|---|
| `Utf8.ValidIffWellFormed` | crates/storageprims-ops/src/lib.rs:719-729 | the scanner accepts exactly the concatenations of RFC 3629 characters |
| `Utf8.NotInvalidIffPrefix` | crates/storageprims-ops/src/lib.rs:719-729 | an error without a length is reported exactly when some continuation makes the bytes well-formed |
| `LineFraming.UnframeLines` | crates/storageprims-ops/src/lib.rs:1511-1562 | texts and terminators concatenate back to the input, with no gap or overlap |
| `LineFraming.LinesUnframe` | crates/storageprims-ops/src/lib.rs:1511-1562 | framing the concatenation of any canonical lines gives those lines back |
| `LineFraming.LineIsSlice` | crates/storageprims-ops/src/lib.rs:1511-1562 | a line is its byte range: text without terminators, then its terminator, which is absent only at the end |
| `LineFraming.SplitsExactlyAtBoundaries` | crates/storageprims-ops/src/lib.rs:1240-1254 | `Lines` distributes over a cut if and only if the cut is a line boundary as the two bytes around it tell |
| `LineFraming.CompleteIsStable` | crates/storageprims-ops/src/lib.rs:1535-1538 | lines framed from a front of the object without end-of-file, a terminal CR held back, are the object's first lines |
| `LineFraming.LeftoverEmptyIff` | crates/storageprims-ops/src/lib.rs:1346-1394 | nothing is held back exactly when the bytes are empty or end in a line feed |
| `LineFraming.RereadRun` | crates/storageprims-ops/src/lib.rs:1205-1227 | re-framing the bytes a run of lines came from gives the same lines at the same offsets |
| `LineFraming.TextAfterBoundary` | crates/storageprims-ops/src/lib.rs:895-909 | what follows a line boundary of well-formed text is well-formed |
| `LineFraming.TextOfLines` | crates/storageprims-ops/src/lib.rs:1455-1509 | bytes whose lines are each well-formed text are well-formed as a whole |
| `Parsers.ExtractFirstCompleteLine` | crates/storageprims-ops/src/lib.rs:1511-1562 | the first line of the framing and its length, no line when it is not settled, refusal when it is not text |
| `Parsers.ParseLinesUpTo` | crates/storageprims-ops/src/lib.rs:1346-1394 | exactly the first `maximum` usable lines, or refusal exactly when one of those is not text |
| `Parsers.ParseTailLinesBounded` | crates/storageprims-ops/src/lib.rs:1396-1453 | exactly the last `maximum` usable lines, or refusal exactly when any usable line is not text |
| `Parsers.CompleteLineConsumed` | crates/storageprims-ops/src/lib.rs:1490-1509 | the first settled line's length, under the same refusal as extraction |
| `Parsers.CountLinesBounded` | crates/storageprims-ops/src/lib.rs:1455-1488 | the number of lines of the whole framing, or refusal exactly when one is not text |
| `Parsers.CountAgreesWithParse` | crates/storageprims-ops/src/lib.rs:1346-1488 | with room for every line, parsing yields what counting counts and refuses when it refuses; the bounded tail is the end of the same list |
| `Parsers.LeftoverText` | crates/storageprims-ops/src/lib.rs:1478-1488 | validating the last line with its terminal CR decides the same as validating it without |
| `Windows.AcceptedIffTextPrefix` | crates/storageprims-ops/src/lib.rs:705-731 | a NUL-free window without a UTF-16 mark is accepted exactly when its bytes, past a BOM, begin some well-formed text |
| `Windows.TextWindowAccepted` | crates/storageprims-ops/src/lib.rs:705-731 | every window of a NUL-free text object that starts on a line boundary is accepted, wherever it ends |
| `Windows.NextLineBoundary` | crates/storageprims-ops/src/lib.rs:1275-1290 | the end of the line that the start byte is in, when its terminator is in the window |
| `Windows.MidpointAlignment` | crates/storageprims-ops/src/lib.rs:1256-1273 | the same from the middle byte |
| `Windows.SliceBoundaryIsBoundary` | crates/storageprims-ops/src/lib.rs:1248-1254 | the previous and the first byte decide whether the window starts on a boundary of the object |
| `Windows.AlignedStartIsBoundary` | crates/storageprims-ops/src/lib.rs:895-909 | the aligned start of a suffix is a boundary of the whole object, wherever the window starts |
| `Windows.MidLinesByPosition` | crates/storageprims-ops/src/lib.rs:1007-1028 | the lines after the one holding byte size/2 are those from the next line end on; all lines when that line has no end |
| `Windows.AggregateMeaning` | crates/storageprims-ops/src/lib.rs:1229-1238 | the aggregate ending is Mixed exactly when two lines end differently, Unknown exactly when none has a terminator, and otherwise the one they share |
| `Windows.AnswerIsUnique` | crates/storageprims-ops/src/lib.rs:1205-1227 | texts, covered bytes, size, strategy and that ending determine the result for given lines |
| `Windows.HeadRereads` | crates/storageprims-ops/src/lib.rs:1205-1238 | framing just the bytes that a head result says it covers gives the lines, offsets and ending it answers with |
| `Windows.TailRereads` | crates/storageprims-ops/src/lib.rs:1205-1238 | the same of a tail result, whether or not it was told the end of the object |
| `Windows.MidRereads` | crates/storageprims-ops/src/lib.rs:1205-1238 | the same of a middle result |
| `Readings.HeadReading` | crates/storageprims-ops/src/lib.rs:787-841 | enough settled lines, or the whole object, make a front window's answer the object's own |
| `Readings.TailReading` | crates/storageprims-ops/src/lib.rs:895-945 | what a suffix window keeps is the last usable lines of the whole object: of all lines when the end is proven, of the settled ones when not |
| `Readings.UntoldEnd` | crates/storageprims-ops/src/lib.rs:914-945 | that is the object's own tail if and only if the object is empty, ends in a line feed, or its end was told |
| `Readings.TailCount` | crates/storageprims-ops/src/lib.rs:895-935 | an aligned suffix window holds exactly as many usable lines as start in the window |
| `Readings.MidReading` | crates/storageprims-ops/src/lib.rs:979-1053 | enough settled lines after the alignment, or the whole object, make a middle window's answer exact |
| `Readings.NarrowMidStopsShort` | crates/storageprims-ops/src/lib.rs:980-995 | a middle window narrower than the object stops before its end, the width being even |
| `Readings.OutputFits` | crates/storageprims-ops/src/lib.rs:602-619 | the text of the lines taken from a window is never longer than the window |
| `Readings.ReadingIsText` | crates/storageprims-ops/src/lib.rs:895-931 | a window of a text object from a boundary is accepted and frames to text |
| `Streams.PolledDelivers` | crates/storageprims-s3/src/lib.rs:1534-1586 | whatever room each poll has, delivered bytes are a front of the source, all of it at the first terminal outcome |
| `Streams.DeclaredOutcome` | crates/storageprims-s3/src/lib.rs:1534-1586 | a length-checked stream ends cleanly iff the source has exactly the declared bytes; short and long sources end in their two errors; data is cut at the declared length |
| `Streams.DeclaredStep` | crates/storageprims-s3/src/lib.rs:1534-1586 | one poll of the checker is one poll of the declared script, for every chunk, pause or failure |
| `Streams.DeclaredLengthRead.PollRead` | crates/storageprims-s3/src/lib.rs:1534-1586 | delivered plus remaining is the declared length, and what is seen through the wrapper is the declared script |
| `Streams.AsyncReadBody.PollFrame` | crates/storageprims-s3/src/lib.rs:2009-2085 | the same for upload frames of at most 8 KiB, with a sticky end |
| `Streams.CopyStreamToPipe` | ffi/storageprims-ffi/src/stream.rs:24-80 | the pipe gets a front of the wanted bytes; all of them, and the stream's own outcome, when no write fails; at the first failing write the copy stops with its error |
| `Source.ByteWindow.CheckedLen` | crates/storageprims-core/src/types.rs:224-229 | the length of an inclusive window; absent exactly when the window is reversed or its length does not fit the word |
| `Source.StrongTagsAre` | crates/storageprims-core/src/types.rs:316-331 | a validator is accepted exactly when it is one to 126 visible characters without a quote, between quotes |
| `Source.WeakTagsRefused` | crates/storageprims-core/src/types.rs:316-331 | no tag that begins with `W/` is accepted (section 8.8.1 of RFC 9110) |
| `Source.NativeVersionsAre` | crates/storageprims-core/src/types.rs:298-314 | a version id is accepted exactly when it is up to 1024 visible characters without quote, comma or backslash, and is not "null" in any mix of cases |
| `Source.BindsExactly` | crates/storageprims-ops/src/lib.rs:325-343 | an observed version is bound whenever there is one, a validator only in its absence; an unfit token, or none, is refused as such |
| `Ledger.AcceptedBudgets` | crates/storageprims-ops/src/lib.rs:1112-1167 | which budgets are accepted, in numbers |
| `Ledger.InspectionLedger.Request` | crates/storageprims-ops/src/lib.rs:159-177 | charges one request or refuses, by deadline first; nothing issued is ever unpaid |
| `Ledger.InspectionLedger.AdmitPayload` | crates/storageprims-ops/src/lib.rs:179-197 | charges bytes before they are pulled, exactly or not at all |
| `Ledger.InspectionLedger.ReleasePayload` | crates/storageprims-ops/src/lib.rs:199-201 | gives back only what was reserved and not pulled, so the saturation is never reached |
| `Ledger.InspectionLedger.AdmitOutput` | crates/storageprims-ops/src/lib.rs:203-220 | charges output exactly or not at all |
| `GuardedRange.ReceiptAcceptedExactly` | crates/storageprims-ops/src/lib.rs:554-600 | a receipt is accepted at a length if and only if its windows and total prove that length |
| `GuardedRange.DeliveredIsObject` | crates/storageprims-ops/src/lib.rs:465-544 | what an honest provider's accepted read delivers is the object's bytes in the window, up to its end |
| `GuardedRange.Drain` | crates/storageprims-ops/src/lib.rs:480-543 | exactly the declared bytes, then a proven end, under any chunking and chunk size; terminates; never pulls more than is reserved |
| `GuardedRange.AskForRange` | crates/storageprims-ops/src/lib.rs:432-479 | reserves length plus the proof byte, pays for one call, and passes on only a validated receipt |
| `GuardedRange.GuardedRangeBytes` | crates/storageprims-ops/src/lib.rs:412-545 | the counter grows by exactly what is delivered; a want of payload or of requests is refused as that, and only a want is; success whenever the answer is deliverable and there is room; never past the deadline |
| `Inspection.AcceptedLineOptions` | crates/storageprims-ops/src/lib.rs:621-634 | a line operation's options are accepted exactly for 1 to 10000 lines and chunk and probe sizes of 1 byte to 1 MiB |
| `Inspection.CompressedKeysAre` | crates/storageprims-ops/src/lib.rs:1572-1576 | the keys taken for compressed are those that end in .gz, .zst, .bz2, .xz, .lz4 or .br |
| `Inspection.HeadLinesWithOptions` | crates/storageprims-ops/src/lib.rs:769-842 | success is exactly the first min(n, count) lines, with their offsets and ending, whatever the probe size; for a served text object it succeeds if and only if the object has at most 1 MiB or its first MiB settles n lines, and is otherwise refused as out of reach; each refusal to open, and binary content, is its own error; only the line-size and deadline limits can occur, for any provider |
| `Inspection.HeadWiderRead` | crates/storageprims-ops/src/lib.rs:806-841 | the second read gives the same first lines as the whole object, and refuses exactly when its window does not settle them |
| `Inspection.TailLinesWithOptions` | crates/storageprims-ops/src/lib.rs:852-946 | success is the last min(n, count) usable lines, and exactly the object's last lines when forced, when the provider tells totals, or under the stated equivalence; for text it succeeds, above 1 MiB and unforced, if and only if n usable lines start in the last MiB, totals told or not; errors and limits as for head |
| `Inspection.ReadSuffix` | crates/storageprims-ops/src/lib.rs:879-909 | the previous byte and the suffix align to a boundary of the object |
| `Inspection.MidLinesWithOptions` | crates/storageprims-ops/src/lib.rs:956-1054 | success is exactly the first n lines after the one holding the middle byte, or of the object when that line never ends; for a served text object above 1 MiB it succeeds, unforced, if and only if that line ends in the window and n more are settled there; errors and limits as for head |
| `Inspection.FrameMid` | crates/storageprims-ops/src/lib.rs:997-1053 | framing the middle window is exact; without a proven end it is refused when the middle line's end is out of sight or its terminator, a CR say, is the window's last byte, and otherwise exactly when too few lines are settled |
| `Inspection.CountLines` | crates/storageprims-ops/src/lib.rs:1056-1110 | with a serving provider the outcome is decided: the number of lines of text of at most 1 MiB, the line limit above that, the payload limit above 8 MiB, or refusal as binary; a provider that hides totals is refused |
| `Inspection.TextObjectIff` | crates/storageprims-ops/src/lib.rs:705-731 | an object passes the binary check and the check of each line exactly when it is NUL-free well-formed text |
| `Inspection.PreviewBytes` | crates/storageprims-ops/src/lib.rs:254-305 | success is the object's first bytes, charged exactly, with the receipt of the call that gave them; with a serving provider it succeeds if and only if the object is empty or the length is under the payload budget; each refusal is its own error |
| `Inspection.PreviewBytesSelected` | crates/storageprims-ops/src/lib.rs:348-410 | the same from an earlier selection, without a second observation |
| `ContentRange.ParsesExactly` | crates/storageprims-s3/src/lib.rs:1348-1399 | the parser accepts exactly the satisfiable ranges spelled by the RFC 9110 grammar, after at most one plus sign is taken from each number |
| `ContentRange.PlusIsTheOnlyExcess` | crates/storageprims-s3/src/lib.rs:1348-1399 | the grammar's own spellings of satisfiable ranges are exactly the accepted values without a plus sign |
| `ContentRange.PlusSignsAccepted` | crates/storageprims-s3/src/lib.rs:1348-1399 | `bytes +0-+2/+3` is accepted and spells no satisfiable range |
| `ContentRange.ContentRangeRoundTrip` | crates/storageprims-s3/src/lib.rs:1348-1399 | every satisfiable range is written by the grammar and survives being parsed |
| `S3Responses.UnfitRequestsRefused` | crates/storageprims-s3/src/lib.rs:863-893 | a selection of another target, an unfit one, or an impossible range is refused whatever the server says |
| `S3Responses.RefusalsPassThrough` | crates/storageprims-s3/src/lib.rs:759-914 | a failure of the server is passed on as it is, and a delete marker is an absent object |
| `S3Responses.HeadAcceptedExactly` | crates/storageprims-s3/src/lib.rs:759-795 | a HEAD response is let through exactly when it identifies the selected source, with its own version, tag and size on the receipt |
| `S3Responses.RangeAcceptedExactly` | crates/storageprims-s3/src/lib.rs:915-995 | a range response is let through if and only if it identifies the selected source and proves the asked window, status, total and length together |
| `S3Responses.AcceptedRangeValidates` | crates/storageprims-s3/src/lib.rs:915-995 | what the provider lets through passes the second validation, at its Content-Length |
| `S3Responses.AcceptedRangeDelivers` | crates/storageprims-s3/src/lib.rs:915-995 | draining it succeeds if and only if the body is exactly the declared bytes and ends |
| `S3Responses.IdentityAccepted` | crates/storageprims-s3/src/lib.rs:1298-1346 | a receipt is made exactly for a response carrying the selector's own version or strong tag, and names the key, version, tag and windows it was made for |
| `S3Responses.FullAcceptedExactly` | crates/storageprims-s3/src/lib.rs:797-855 | a full response is let through if and only if it is a 200 that identifies the source and whose Content-Range, if any, covers its Content-Length; its window is then the whole of that length |
| `S3Responses.AcceptedFullIsWhole` | crates/storageprims-s3/src/lib.rs:1401-1437 | a full read ends cleanly only at the declared length |
| `Snapshot.ObservationSelects` | crates/storageprims-ops/src/lib.rs:325-343 | over the HTTP response: a version id that is fit and not "null" is selected by, failing an id a strong tag, and nothing else is |
| `Snapshot.ObservedVersionIsRead` | crates/storageprims-ops/src/lib.rs:307-343 | whatever writers do between calls, everything answered about the bound selection is true of one version, the observed one, which is the current one when observations are current (strong comparison, section 8.8.1 of RFC 9110) |
| `Snapshot.RetainedVersionServes` | crates/storageprims-ops/src/lib.rs:307-343 | over a server that goes on answering for stored versions by id, a version observed by its id is served to the operation whatever is put, deleted or reverted meanwhile |
| `Snapshot.QuietServerServes` | crates/storageprims-s3/src/lib.rs:857-997 | over a server left alone the provider meets the condition under which the operations are certain to succeed |
| `Snapshot.HeadUnderWriters` | crates/storageprims-ops/src/lib.rs:769-842 | a successful head is the head of one version the store has held by its observation, the current one when observations are current; over retained versions its outcome is decided by that version alone |
| `Snapshot.TailUnderWriters` | crates/storageprims-ops/src/lib.rs:852-946 | the same of the tail, never a mixture of its windows; exact when forced, when totals are told, and under the same equivalence |
| `Snapshot.MidUnderWriters` | crates/storageprims-ops/src/lib.rs:956-1054 | the same of the middle |
| `Snapshot.CountUnderWriters` | crates/storageprims-ops/src/lib.rs:1056-1110 | the same of the count |
| `Snapshot.PreviewUnderWriters` | crates/storageprims-ops/src/lib.rs:254-305 | the same of the preview |
| `UntoldTotals.PartAccepted` | crates/storageprims-s3/src/lib.rs:915-995 | the provider lets a 206 with an unknown total through, delivers its bytes and passes the unknown total on |
| `UntoldTotals.UntoldProviderDelivers` | crates/storageprims-s3/src/lib.rs:857-997 | over such a server the provider is honest, delivers every part of the object, and never tells a total |
| `UntoldTotals.LastLineOfThreeBytes` | crates/storageprims-ops/src/lib.rs:914-945 | the tail of "a LF b" for n = 1 then succeeds with "a", which is not the exact tail |
| `FfiRange.GetRangeToPipe` | ffi/storageprims-ffi/src/stream.rs:195-256 | under any writers, the pipe receives a front of the clipped range of the observed version, and all of it when the copy reports success; it does so over a server that answers the range in full and a pipe that takes every write |
| `Registry.FfiRuntime.AllocateStreamId` | ffi/storageprims-ffi/src/runtime.rs:86-87 | the old counter is the id, and the counter wraps at 2^64 |
| `Registry.FfiRuntime.InsertStream` | ffi/storageprims-ffi/src/runtime.rs:86-93 | allocation and insertion with nothing between them |
| `Registry.FfiRuntime.TakeStream` | ffi/storageprims-ffi/src/runtime.rs:95-106 | removes the entry it returns; an unknown id is an error that changes nothing |
| `Registry.FfiRuntime.RemoveStream` | ffi/storageprims-ffi/src/runtime.rs:108-114 | removes the entry and tells whether there was one |
| `Registry.Perform` | ffi/storageprims-ffi/src/runtime.rs:86-114 | each method of the runtime does to the object what its step does to the model's table, and returns the id or entry the step gives |
| `Registry.RunKeepsInvariant` | ffi/storageprims-ffi/src/stream.rs:114-136 | over every interleaving below the wrap: ids in order, the table exact, each entry taken once, each finalizer's outcome its own call's |
| `Registry.IdsRepeatOnlyAtWrap` | ffi/storageprims-ffi/src/runtime.rs:86-87 | two calls share an id exactly when they are a multiple of 2^64 allocations apart |
| `Registry.InsertsSafeExactlyBelowWrap` | ffi/storageprims-ffi/src/runtime.rs:86-93 | no run of at most n calls has an insert over a live entry, if and only if n is at most 2^64 |
| `Registry.EntriesAreTheUnfinalized` | ffi/storageprims-ffi/src/stream.rs:126-136 | the registry holds exactly the ids of calls neither rolled back nor finalized |
| `Registry.OneFinalizerPerId` | ffi/storageprims-ffi/src/stream.rs:339-356 | of any two finalizers naming one id, one finds it unknown; a wrong-kind finalizer consumes |
| `Registry.FinalizerReturnsItsOwn` | ffi/storageprims-ffi/src/stream.rs:370-390 | a reported result was sent by the worker of the call given that id; a dropped worker is reported only of that call; wrong kind exactly when the kinds differ |
| `Registry.SettledStays` | ffi/storageprims-ffi/src/stream.rs:132-136 | once a worker has sent its result or gone without, no step of any thread changes that |
| `Registry.FinalizerLearns` | ffi/storageprims-ffi/src/stream.rs:299-316 | over any run below the wrap, said of its steps: the first finalizer to name a begun call's id, of the right kind and resumed after the worker's first end, reports the result sent, or the dropped worker |
| `Registry.WrongKindConsumes` | ffi/storageprims-ffi/src/stream.rs:339-356 | the first finalizer to name the id, if of the other kind, fails as that and leaves no entry |
| `Registry.WaitingFinalizerResumes` | ffi/storageprims-ffi/src/stream.rs:377-384 | a waiting finalizer that resumes takes over its own channel's state |
| `Prefixes.NormalizeMeaning` | crates/storageprims-s3/src/lib.rs:1822-1826 | the normalized root is the one slash-free-ended core of the value, absent exactly for slashes alone |
| `Prefixes.RootHasOneSource` | crates/storageprims-s3/src/lib.rs:1044-1056 | the root is refused exactly when both sources set one, and otherwise is the core of the one that does |
| `Prefixes.ResolveRefusesExactly` | crates/storageprims-s3/src/lib.rs:1834-1868 | a list prefix is refused exactly when absolute or when it begins with a URI scheme and `://` (section 3.1 of RFC 3986) |
| `Prefixes.ResolvedIsProper` | crates/storageprims-s3/src/lib.rs:1834-1855 | a prefix is sent exactly when there is a root or a caller's prefix, and never an empty one |
| `Prefixes.ResolvedPrefixMatches` | crates/storageprims-s3/src/lib.rs:1834-1882 | keys under the resolved prefix are exactly those that project to something under the caller's |
| `Prefixes.JoinAfterStrip` | crates/storageprims-s3/src/lib.rs:1870-1997 | a listed key is found again by its projection if and only if that has no leading slash and, under a root, is not empty |
| `Prefixes.StripAfterJoin` | crates/storageprims-s3/src/lib.rs:1870-1997 | a joined key projects to the caller's key without leading slashes; only the bare root does not project |
| `Prefixes.KeysCollideIffTrimmedEqual` | crates/storageprims-s3/src/lib.rs:1990-1997 | two relative keys name one object exactly when equal after that trim |
| `Prefixes.RootsAreSeparate` | crates/storageprims-s3/src/lib.rs:1828-1882 | two roots accept a common key only when one lies inside the other at a path boundary |
| `DelimiterPages.ValidateDelimiterListPage` | crates/storageprims-s3/src/lib.rs:1913-1988 | accepts exactly the acceptable pages: at most max_keys rows, 1000 when that is absent or 0; a page that only has too many is refused for that; any refusal names the first failing row's own complaint; the overflow branch is dead |
| `DelimiterPages.NativePageAccepted` | crates/storageprims-s3/src/lib.rs:1913-1988 | rows of keys under the resolved prefix, grouped at the first delimiter, are accepted exactly up to the number asked for, the full page included |
| `DelimiterPages.ListDelimitedPage` | crates/storageprims-s3/src/lib.rs:651-702 | the unwraps after validation cannot fail; counts and order are kept; objects and common prefixes are disjoint and under the caller's prefix |
| `Anchors.Shell.Rollback` | scripts/install-release-anchors.sh:18-25 | the pair becomes what the backup held, absences included, with nothing left staged |
| `Anchors.BackUp` | scripts/install-release-anchors.sh:14-17 | the backup is the pair, and the installed files are untouched even when a copy fails half way |
| `Anchors.Swap` | scripts/install-release-anchors.sh:30-41 | reaching the end means the staged pair is installed and approved; the backup is untouched throughout |
| `Anchors.Install` | scripts/install-release-anchors.sh:7-43 | for every command struck by a failure, a signal or both: the new, approved pair exactly when the traps were disarmed, otherwise the original pair; exactly when that is; nothing is touched for a missing or empty staged file |

## Left out

- The AWS SDK, credentials, client construction and the error-code tables: library calls and flat case tables.
- The tokio runtime and real clocks, including deadlines too far away to represent: `expires` stands for the clock.
- Pipes, file descriptors, raw pointers, JSON and the panic boundary: a pipe is a sequence of whole writes that may each fail, and a put finalizer reports its result without the writing of it as JSON.
- The provider registry and the runtime handle table: the same maps and counters as the stream registry, without its protocol.
- The scratch buffer of the drain loop: each read's bytes are appended as they come.
- Streams.DeclaredLengthRead.PollRead: nothing is promised after the first error, which is not sticky in the source.
- A reader that never stops pausing: scripts are finite, so an await ends.
- `parse_lines` and the unbounded list page validator: both are weaker forms of what is modelled.
- List, put, copy, delete and probe requests themselves, object metadata in listings, and consistency between the pages of one listing.
- The request headers that carry a selector: a server that ignores them is among the servers quantified over.
- Redaction, URI parsing, capability lists, the other release scripts, and a second fault during a rollback.
