# A verified model of oxideav-source

This Dafny project models the in-process core of `oxideav-source` and proves properties of it: the prefetching
`BufferedSource`, the composable readers `MemReader`, `SubSource` and `ConcatSource`, and the `data:`, `slice:` and
`concat:` grammars with the recursive opener that gives URIs their meaning. `dafny verify dfyconfig.toml` checks it.

## What is modelled

**The prefetch ring.** `Protocol.dfy` is a two-thread transition system. Each region of `src/buffered.rs` that runs
under the mutex is one step; each call of the inner source is one step; a condition-variable wait is two, release and
sleep, then wake and lock again. The scheduler, the timer, spurious wake-ups and the inner source choose the steps: an
inner read may come back short, with `Interrupted`, or with a fatal error, an inner seek may fail, and a timer may
fire although a block was deposited just before the reader got the lock back. `RingModel.dfy` says on values what each
region does; `ByteQueue.dfy` and `Buffered.dfy` are the objects (circular storage, `RingState`, `BufferedSource`)
whose methods are proved to take exactly the steps that run code of the reader or the worker, with every `u64` sum
proved not to overflow. Timers, spurious wake-ups and the join have no code here: they are steps of the protocol only.
The invariant `Protocol.Inv` has five parts: the ring is a window of the data around the reader, the worker's cursor
or block lines up with the end of the ring unless a seek is pending, an error is stored exactly while the worker is
dead, whoever sleeps un-notified has a reason, and calls come in order. From it follow

* refinement: over every schedule each call gets, in order, the answer of a plain cursor over the data, and an error
  only if the timer or the inner source raised it (`EveryRunIsACursor`);
* liveness: bounded waits, no deadlock, prompt stop, drops that never hang (`Progress.dfy`);
* sticky failure (`Sticky.dfy`), cancelled fetches (`Cancellation.dfy`), free short back-seeks (`Lookback.dfy`).

**Composed readers.** Rust's `Box<dyn BytesSource>` becomes one class `Source` whose `kind` stands for the dynamic
dispatch. A `Shape` is how a source was put together from memory leaves, and `Shapes.Denote` is what it serves: a
window is a subsequence, a concatenation a flattening. Every read is proved to deliver the right bytes of the
denotation at the source's own position, a number of them that depends on shape, position and limit only. The
same cursor specification (`CursorSpec.dfy`) that the prefetch ring refines is met here for every sequence of calls on
every composition, and `Stacking.dfy` puts the ring on top of a composition, up to whole runs over an opened URI
(`OpenedUriIsACursor`).

**URIs.** Texts are byte sequences. The printers and parsers are functions, the byte loops (percent and base64 coding)
are methods proved against them, with the shifts and masks of the original on bit-vectors. `Opener.Meaning` maps a URI
to a `Shape`; opening is proved to succeed exactly when there is a meaning and to build a source of that shape.
`Dispatch.dfy` says scheme by scheme, in any spelling, which bytes a text stands for, down to characters, decimal
places, six-bit quotients and hexadecimal digits.

## Where the code and its documentation differ

The model follows the code in each case.

* `src/buffered.rs:62` says that at least `capacity * num / den` bytes are retained. The product saturates, so for
  huge rings less is kept: `RearIsTheFraction` gives the exact condition and `SaturationShrinksTheAllowance` an input.
  The shortfall needs more than 4 GiB (`SmallRingsKeepTheFraction`). Nor are bytes retained that precede the last
  restart; `Lookback.dfy` states the guarantee with that limit.
* `src/slice.rs:102-108` says an inner reference with a `!` cannot round-trip. It does: `SliceUri.RoundTrip` shows that
  only an empty inner reference fails, so `SliceUri::new` refuses values the parser produces, every nested slice among
  them (`NewRefusesRoundTrippingValues`).
* `src/data.rs:121` says `parse(format(x)) == x` always. The fields are public; `DataUri.RoundTrip` shows that it holds
  exactly for the values the constructor accepts, `PayloadSurvivesIff` when at least the payload comes back.
* `src/concat.rs:296-297` says `open` is byte for byte identical to opening `format()`. The segments are a public field.
  The empty list opens while its text does not (`EmptyConcatOpensOnlyTyped`), and a segment `p|q` may fail to open while
  its text opens the paths `p` and `q` (`BarsMayHide`). `ConcatMeansItsValue` says what the text means for every value:
  the segments cut at their separators, one leading `//` lost. The two agree for accepted values, and the theorem says
  exactly which others do. `SliceMeansItsValue` (for `src/slice.rs:149`) and `DataMeansItsValue` give the exact
  conditions for the other two schemes.
* `src/uri.rs:11-12` says a drive letter counts as one only when no `//` follows. The code does not look at what
  follows: `c://x` is a bare path too (`DriveLettersAreBare`).
* `src/buffered.rs:125-126` promises progress whatever the tunables. The clamps keep that promise but for block sizes
  whose fourfold overflows (`Clamp`). `build` as a whole has more exceptions: no ring can have a capacity above
  `isize::MAX`, so capacities from 2^63 and block sizes from 2^61 make it panic (`Stacking.Build`).
* `src/buffered.rs:405-411` guards against a reader behind the ring start. No run reaches that branch: the error is not
  among the answers `CursorSpec.Allowed` permits.

## Model

| member | source | states |
|---|---|---|
| RingModel.SanitiseLookback | src/buffered.rs:249-261 | the fraction is below 1, valid fractions are kept, a zero denominator means no lookback |
| RingModel.Clamp | src/buffered.rs:203-207 | clamped tunables give room for four blocks and a proper fraction exactly for block sizes whose fourfold fits in a `u64`; no knob is raised further than its floor asks, in-range values are kept |
| RingModel.RearBelowCapacity | src/buffered.rs:97-107 | the lookback allowance is strictly below the capacity, saturation included |
| RingModel.RearIsTheFraction | src/buffered.rs:62-65 | the allowance never exceeds the documented fraction and equals it exactly when the cap loses no whole multiple |
| RingModel.SmallRingsKeepTheFraction | src/buffered.rs:102-107 | up to 4 GiB and with 32-bit fractions the documented allowance is met |
| RingModel.SaturationShrinksTheAllowance | src/buffered.rs:102-107 | an 8 GiB ring with a 32-bit fraction for which half of the documented allowance is kept |
| ByteQueue.Deque.CopyOut | src/buffered.rs:416-433 | the two-slice copy writes exactly the wanted stretch for every split point and nothing else |
| ByteQueue.Deque.Extend | src/buffered.rs:378 | a deposit appends the block, wherever the storage wraps |
| ByteQueue.Deque.Drain | src/buffered.rs:445 | draining forgets exactly the oldest bytes |
| Buffered.RingState.constructor | src/buffered.rs:216-229 | the state the worker is started with |
| Buffered.RingState.EnterPhase1 | src/buffered.rs:318-360 | the worker's first region does the specified step: stop, seek, park or fetch |
| Buffered.RingState.EnterPhase3 | src/buffered.rs:365-395 | the worker's last region deposits, notes the end, retries, dies or discards as specified |
| Buffered.RingState.Bury | src/buffered.rs:336-342 | a fatal error is stored and the worker marked dead |
| Buffered.RingState.ServeHit | src/buffered.rs:413-450 | a hit copies the bytes out and drops only what lies beyond the allowance behind the new position |
| Buffered.RingState.ReadLocked | src/buffered.rs:403-503 | the locked loop of `read` computes the specified answer, ring and notification; at most one extra pass |
| Buffered.RingState.SeekLocked | src/buffered.rs:507-548 | `seek` under the lock computes the specified answer and ring; in plain arithmetic `Current(d)` goes to the position plus `d`, `End(d)` to the length plus `d`, each failing exactly outside `u64` |
| Buffered.BufferedSource.constructor | src/buffered.rs:216-246 | once knobs are clamped and the source is probed, `build` establishes the invariant and the initial state of the protocol |
| Buffered.BufferedSource.CallRead | src/buffered.rs:399-403 | entering `read` is the protocol's step; an empty buffer returns at once |
| Buffered.BufferedSource.ReaderRegion | src/buffered.rs:403-503 | the reader's region is the protocol's step, its bytes are in the caller's buffer, the rest of which is untouched |
| Buffered.BufferedSource.Seek | src/buffered.rs:506-549 | `seek` is the protocol's step, and goes where plain arithmetic says |
| Buffered.BufferedSource.SetStop | src/buffered.rs:562-567 | the first half of `drop` is the protocol's step |
| Buffered.BufferedSource.NotifyStop | src/buffered.rs:568-569 | the second half of `drop` is the protocol's step |
| Buffered.BufferedSource.WorkerRegion | src/buffered.rs:315-396 | each locked region of the worker is the protocol's step |
| Buffered.BufferedSource.InnerSeek | src/buffered.rs:336-344 | the unlocked inner seek is the protocol's step |
| Buffered.BufferedSource.InnerRead | src/buffered.rs:362-363 | the unlocked inner read is the protocol's step |
| Protocol.WorkerWakesReader | src/buffered.rs:322-395 | the worker's regions wake a sleeping reader exactly when they change the ring |
| Protocol.ReaderWakesWorker | src/buffered.rs:443-548 | reads and seeks wake a parked worker exactly when they change the ring |
| Protocol.InitialIsCoherent | src/buffered.rs:209-245 | the invariant holds when `build` returns, also for an initial position past the end |
| Protocol.Phase1KeepsInv | src/buffered.rs:322-358 | the invariant survives the worker's first region |
| Protocol.Phase3KeepsInv | src/buffered.rs:365-395 | the invariant survives the deposit region, stale blocks included |
| Protocol.ReaderRegionKeepsInv | src/buffered.rs:403-503 | the invariant survives the reader's region, drains of a full ring included |
| Protocol.SeekKeepsInv | src/buffered.rs:507-548 | the invariant survives seeks that race the worker |
| Protocol.StepKeepsInv | src/buffered.rs:315-574 | ring coherence, worker alignment, sticky failure and justified sleep survive every step of either thread |
| Protocol.StepConforms | src/buffered.rs:398-549 | what a step answers is what a plain cursor may answer to the very call under way; an error was pending before it is reported |
| Protocol.EveryRunIsACursor | src/buffered.rs:315-574 | over every schedule the calls made are answered one by one and in order, at most the last one pending, with a plain cursor's answers; the final position is the cursor's; every error was raised by the timer or the inner source |
| Protocol.UndisturbedReadsSucceed | tests/model_differential.rs:1-11 | with no timeout and no fatal inner call the behaviour is a plain cursor's outright: no read fails |
| Protocol.TimeoutsNeedFirings | src/buffered.rs:491-500 | over every run no more reads time out than timers fire |
| CursorSpec.ConformsAppend | tests/model_differential.rs:1-11 | conversations with the reference cursor compose |
| CursorSpec.SeekTargetIsTheSum | src/mem.rs:127-138 | where the reference cursor seeks, in plain arithmetic |
| CursorSpec.PositionQuery | tests/conformance.rs:150-154 | asking for the position tells it and moves nothing |
| CursorSpec.StreamingDeliversTheStretch | src/buffered.rs:398-504 | short, failed and retried reads together deliver exactly the stretch passed over |
| Progress.StepsLowerRank | src/buffered.rs:317-394 | every step lowers the rank of a waiting read, but for a constant setback at a retry or a spurious wake-up |
| Progress.ReadyStays | src/buffered.rs:403-503 | an answer once available is not taken away before the read returns |
| Progress.WaitsAreBounded | src/buffered.rs:317-394 | under every schedule a read without an answer has seen at most 45 steps plus a constant for each retry and each spurious wake-up |
| Progress.ReadyReadReturns | src/buffered.rs:403-503 | what a ready read returns, exactly: a timeout if the timer fired and there is neither error nor end, else what is in the ring up to the room, past it the worker's failure, else the end |
| Progress.NoDeadlock | src/buffered.rs:471-501 | while a read waits some thread can take a step that brings the answer closer, and the two never sleep together |
| Progress.EveryReadCanReturn | src/buffered.rs:315-503 | from every state of a read at most 46 steps of the two threads make it return, without timer or spurious wake-up, with bytes if any are left unless an error was pending |
| Progress.FetchesWhenNeeded | src/buffered.rs:322-358 | what the worker turns to, exactly: it fetches a whole block or all that fits unless stopped, asked to seek, at the end or full |
| Progress.NoIdleFetches | src/buffered.rs:346-356 | over every run, no inner call begins once the end is known or the ring is full, until a seek or read asks for more |
| Progress.NoReachableDeadlock | src/buffered.rs:315-574 | from `build` on, in every reachable state a waiting read or a drop has a move that brings its end closer |
| Progress.StopIsPrompt | src/buffered.rs:323-325 | after `stop` no new inner call begins, at most three worker steps remain, the ring stays as it is |
| Progress.DropNeverHangs | src/buffered.rs:562-574 | until the worker is joined somebody can move: no wake-up is lost |
| Progress.DropEndsSoon | src/buffered.rs:562-574 | under every schedule at most eight steps follow `stop`, after which the worker is joined |
| Sticky.FailureIsSticky | src/buffered.rs:71-80 | after a fatal error every run keeps it; reads serve correct bytes or that failure, never a timeout |
| Cancellation.StaleBlockNeverLands | src/buffered.rs:366-371 | from an out-of-window seek to the return of the fetch it overtook the ring stays empty, whatever happens meanwhile, and the block is thrown away |
| Cancellation.OvertakenFetchIsDiscarded | src/buffered.rs:366-371 | a fetch overtaken by a seek or a stop changes nothing, however long it takes |
| Cancellation.PickUpIsInvisible | src/buffered.rs:326-335 | the worker's later pick-up changes nothing the reader can observe |
| Cancellation.InWindowSeekIsFree | src/buffered.rs:520-526 | after an in-window seek the next read delivers the bytes at the new position although the worker takes no step |
| Lookback.StepRetains | src/buffered.rs:437-448 | no step drops a byte within the allowance of the furthest position since the restart |
| Lookback.ShortBackSeeksAreFree | src/buffered.rs:437-448 | over every run, back-seeks within the allowance and not before the restart stay in the window |
| Lookback.ReadsLeaveTheAllowance | src/buffered.rs:437-448 | a read leaves exactly the allowance behind the reader, or less if there was less, and loses nothing ahead |
| Lookback.FreshRingIsRetained | src/buffered.rs:216-224 | the guarantee holds from `build` on |
| Shapes.SegmentBytes | src/concat.rs:63-66 | part `i` occupies exactly the stretch between consecutive starts |
| Shapes.HolderIsUnique | src/concat.rs:106-116 | with any number of empty parts exactly one part holds a position |
| Shapes.ReadLen | src/sub.rs:129-135 | a composed read is never longer than asked or available, and empty only at the end or without room |
| Shapes.SeamlessReadsFill | src/mem.rs:109-125 | leaves and windows of leaves deliver all there is room for |
| Shapes.ReadsToTheSeam | src/concat.rs:128-141 | a concatenation of them delivers all there is room for up to the end of the part |
| Shapes.HolderRead | src/concat.rs:128-141 | reading the holder up to its end is reading the concatenation |
| Shapes.WindowsCollapse | src/slice.rs:42-45 | a window of a window is the window at the sum of the offsets |
| Shapes.WindowOverJoin | src/slice.rs:46-50 | a window over a concatenation is the concatenation of the windows |
| Sources.Source.SegmentFor | src/concat.rs:106-116 | the scan finds the unique segment, none exactly at or past the end |
| Sources.Source.Read | src/concat.rs:119-142 | any composition delivers the bytes of its denotation at its own position, whatever the inner cursors |
| Sources.Source.ReadMem | src/mem.rs:109-125 | the leaf read delivers the rest or the room, whichever is less |
| Sources.Source.ReadSub | src/sub.rs:128-150 | the window read |
| Sources.Source.ReadConcat | src/concat.rs:119-142 | the concatenation read |
| Sources.Source.Seek | src/concat.rs:144-155 | seeks go to `n`, to the position plus `d` or to the length plus `d`, fail exactly outside `u64`, and touch nothing else |
| Sources.StreamLen | src/sub.rs:117-126 | the length of any source, its position unchanged |
| Sources.NewSub | src/sub.rs:68-88 | a window is built exactly when it lies inside, and the inner source ends up at its base |
| Sources.NewConcat | src/concat.rs:75-96 | a concatenation is built exactly when its total fits in a `u64` |
| Sources.ReadToEnd | src/concat.rs:119-142 | a read-until-zero loop terminates having produced exactly the rest |
| Sources.Converse | tests/model_differential.rs:1-11 | any sequence of calls on any composition is answered one by one as by a plain cursor, and no read fails |
| Stacking.Build | src/buffered.rs:200-246 | `build` on any composed source and any knobs: there is no reader exactly where the arithmetic or the ring's capacity overflows, else the protocol starts and probing leaves the source where it was |
| Stacking.ReadAhead | src/buffered.rs:362-363 | reading a composed source into the scratch buffer is an inner read the protocol allows |
| Stacking.Reposition | src/buffered.rs:336 | seeking a composed source is an inner seek the protocol allows |
| Stacking.ServingIsPossible | src/buffered.rs:336-363 | whatever the worker asks of a composed source can be served |
| Stacking.OpenedUriIsACursor | src/lib.rs:83-104 | over every schedule a prefetching reader on an opened URI answers every sequence of calls as a plain cursor over the bytes the URI means; a read fails only by a timeout, one for each firing |
| Basics.AddSigned | src/buffered.rs:551-560 | the signed sum, an error exactly outside the `u64` range |
| Text.Find | src/uri.rs:14 | the first occurrence |
| Text.SplitScheme | src/uri.rs:13-39 | a scheme, a colon and a payload split back, one leading `//` of the payload lost |
| Text.SplitLosesOnlyAuthority | src/uri.rs:34-36 | of any URI with a scheme, `file:` included, a split loses the colon and one `//`, nothing else |
| Text.DriveLettersAreBare | src/uri.rs:18-21 | one letter before the first colon makes a bare path, whatever follows |
| Text.BareIffNoScheme | src/uri.rs:9-33 | a bare path is exactly a text without a scheme of two or more bytes |
| Text.NamesSpelled | src/lib.rs:83-104 | the scheme names, marker and separators, in characters |
| Text.ClassesSpelled | src/uri.rs:22-28 | schemes consist of letters, digits, `+`, `-` and `.` |
| Text.EqIgnoreCaseIff | src/uri.rs:48-50 | the comparison identifies exactly the spellings that differ in the case of letters |
| Text.VariantSplits | src/uri.rs:41-50 | a scheme in any case splits off like the lower-case one |
| Decimal.CanonicalRoundTrip | src/slice.rs:234-250 | printing and canonical parsing are mutual inverses on all of `u64` |
| Decimal.OneMoreDigit | src/slice.rs:234-250 | a further digit shifts the number by a decimal place and adds the digit |
| Decimal.ParsesToNumeral | src/slice.rs:234-250 | exactly the canonical tokens parse, to the number they mean |
| Decimal.PrintsNumeral | src/slice.rs:134-136 | a number is printed as the canonical token that means it |
| SliceUri.HeaderRoundTrip | src/slice.rs:196-223 | the header parser accepts exactly what the printer emits |
| SliceUri.HeaderMeans | src/slice.rs:196-223 | a header's offset and length are the numbers its two tokens mean, in that order |
| SliceUri.OnlyHeadersParse | src/slice.rs:196-223 | nothing else parses |
| SliceUri.FormatSpelled | src/slice.rs:134-136 | the printed text in characters |
| SliceUri.NewIffOneBang | src/slice.rs:109-127 | the constructor accepts exactly the values whose text holds one `!` |
| SliceUri.RoundTrip | src/slice.rs:129-136 | `parse(format(x)) == x` exactly for a non-empty inner reference |
| SliceUri.FormatOfParse | src/slice.rs:75-85 | `format(parse(u))` is `u` up to scheme case and one `//`, and `u` itself exactly for canonical spellings |
| SliceUri.NewRefusesRoundTrippingValues | src/slice.rs:102-121 | every nested slice round-trips but is refused by the constructor |
| SliceUri.NewIsSafe | src/slice.rs:109-127 | what the constructor accepts round-trips |
| ConcatUri.JoinOfSplit | src/concat.rs:177-185 | joining what was split on the separator gives the text back |
| ConcatUri.SplitOfJoin | src/concat.rs:288-290 | splitting what was joined gives the segments back |
| ConcatUri.ParsedIsAccepted | src/concat.rs:318-346 | every value the parser produces is one the constructor accepts |
| ConcatUri.ParsesIff | src/concat.rs:318-346 | exactly the texts parse that have no separator at an end or next to another; the segments are what lies between |
| ConcatUri.FormatSpelled | src/concat.rs:288-290 | the printed text in characters |
| ConcatUri.RoundTrip | src/concat.rs:248-290 | `parse(format(x)) == x` exactly for the values the constructor accepts |
| ConcatUri.RoundTripUnlessAuthority | src/concat.rs:268-279 | for proper segments only a leading `//` stands in the way |
| ConcatUri.FormatParsesToPieces | src/concat.rs:281-290 | for every value, also those the constructor refuses: the text parses to the segments cut at their separators, one leading `//` lost, or not at all |
| ConcatUri.FormatOfParse | src/concat.rs:220-226 | `format(parse(u))` is `u` up to scheme case and one `//`, and `u` itself exactly for canonical spellings |
| Percent.RoundTrip | src/data.rs:131-142 | decoding the printed payload returns it, for every payload |
| Percent.DecodesIffWellEscaped | src/uri.rs:89-121 | decoding fails exactly on a truncated or non-hexadecimal escape |
| Percent.EscapeMeans | src/uri.rs:95-115 | an escape stands for sixteen times its first digit plus its second, digits counted by their place in `0`-`F`, in either case |
| Percent.PlainByteMeans | src/uri.rs:115-119 | every other byte, `+` included, stands for itself |
| Percent.EscapeCaseIsIrrelevant | src/uri.rs:123-130 | a text decodes like itself with the digits of its escapes in upper case |
| Percent.EscapesAllButUnreserved | src/data.rs:131-142 | exactly the unreserved bytes are printed as they are, all others as escapes with upper-case digits |
| Percent.EncodeInParts | src/data.rs:131-142 | payloads are printed byte by byte |
| Percent.DecodeBytes | src/uri.rs:89-121 | the index loop computes the decoder whose values `EscapeMeans` and `PlainByteMeans` give |
| Percent.EncodeBytes | src/data.rs:133-142 | the printing loop computes the encoder |
| Base64.TripleThroughSextets | src/data.rs:173-176 | shifts and masks of the encoder are undone by those of the decoder |
| Base64.QuadThroughOctets | src/data.rs:327-337 | shifts and masks of the decoder are undone by those of the encoder |
| Base64.RoundTrip | src/data.rs:168-195 | decoding what was encoded returns it, for every payload |
| Base64.AlphabetTable | src/data.rs:170 | the table: letters in order, digits, `+`, `/` |
| Base64.ValueIsPlace | src/data.rs:343-353 | the value of a byte is its place in the table, if it has one |
| Base64.EncodeEmits | src/data.rs:168-195 | three bytes are printed as the letters of their four six-bit quotients, high bits first |
| Base64.EncodeEmitsTail | src/data.rs:168-195 | the same for a remainder of two bytes or one, with its padding |
| Base64.DecodeReads | src/data.rs:298-337 | the bytes a group of letters stands for, padding dropping the bits that fill no byte |
| Base64.DecodeInGroups | src/data.rs:298-337 | full groups are read one after the other |
| Base64.SpaceIsIgnored | src/data.rs:281-290 | spaces, tabs and line breaks anywhere change nothing |
| Base64.AcceptsIffWellPadded | src/data.rs:281-341 | the decoder accepts exactly padded quads of alphabet bytes, white space aside |
| Base64.ReencodesIffUnusedBitsZero | src/data.rs:281-341 | re-encoding gives the text minus white space exactly when the unused trailing bits are zero |
| Base64.EncodeBytes | src/data.rs:168-195 | the three-byte loop with its remainder computes the encoder that emits the letters of `EncodeEmits` |
| Base64.ReadGroup | src/data.rs:298-337 | the inner loop with its padding count computes the decoder of one group |
| Base64.DecodeBytes | src/data.rs:281-341 | stripping, the length test and the group loop compute the decoder that reads as `DecodeReads` says |
| DataUri.MarkerIff | src/data.rs:259-277 | what is cut off is exactly the marker at the end, each letter in either case |
| DataUri.ParsedIsAccepted | src/data.rs:201-250 | every value the parser produces is one the constructor accepts |
| DataUri.RoundTrip | src/data.rs:85-145 | `parse(format(x)) == x` exactly for the values the constructor accepts, whatever the payload |
| DataUri.ParsesMarked | src/data.rs:201-250 | with a marker before the first comma, in any case, what follows is base64 |
| DataUri.ParsesUnmarked | src/data.rs:201-250 | without one it is percent-encoded |
| DataUri.NothingWithoutComma | src/data.rs:201-250 | without a comma nothing parses |
| DataUri.FormatSpelled | src/data.rs:124-145 | the printed text in characters |
| DataUri.PayloadSurvivesIff | src/data.rs:85-145 | for every value, also those the constructor refuses, the exact condition under which the text carries the payload |
| DataUri.FormatBytes | src/data.rs:124-145 | the printer with its loops computes `format` |
| DataUri.ParseBytes | src/data.rs:201-250 | the parser with its loops computes `parse` |
| Opener.MeaningIsWellFormed | src/slice.rs:150-155 | what a URI means is a shape the constructors admit |
| Opener.OpenBytes | src/lib.rs:83-104 | opening terminates, succeeds exactly when the URI has a meaning (what that is, `Dispatch` says for every text), and serves it from position 0 |
| Opener.OpenSlice | src/slice.rs:150-155 | the typed slice opens exactly when its inner URI does and the window fits |
| Opener.OpenConcat | src/concat.rs:298-305 | the typed concatenation opens exactly when its segments do and the total fits |
| Opener.OpenSegment | src/concat.rs:192-210 | a segment opens exactly when it is openable and not itself a concatenation |
| Composition.SliceMeansItsValue | src/slice.rs:138-155 | for every typed slice, opening it and opening its text agree exactly unless the inner reference is empty and yet opens |
| Composition.ConcatMeansItsValue | src/concat.rs:292-305 | for every value what its text means: the segments cut at their separators. Text and typed value agree for accepted values. Others that open without separators inside segments serve the bytes of their text exactly if only a leading `//` is wrong and the first segment serves the same bytes without it; any is the same composition exactly if the first segment opens the same without it. One that does not open agrees with its text exactly if the pieces do not open either |
| Composition.BarsMayHide | src/concat.rs:292-305 | a value with a separator in a segment that serves the same bytes as its text by coincidence, and one that does not open while its text does |
| Composition.EmptyConcatOpensOnlyTyped | src/concat.rs:292-305 | the empty concatenation opens, its text does not |
| Composition.DataMeansItsValue | src/data.rs:147-153 | opening a typed data value and opening its text agree for every accepted value, and for all others exactly when the text carries the payload |
| Composition.MemMeansItsBuffer | src/mem.rs:65-93 | ids open exactly if they are registered, not empty and free of `/`, and then serve their buffer, in both spellings |
| Dispatch.SchemeCaseIsIrrelevant | src/lib.rs:83-104 | a text means the same in every case of its scheme's letters |
| Dispatch.FileTextsAreLookedUp | src/lib.rs:83-104 | bare paths and `file:` texts, in any case, open exactly what is stored under them |
| Dispatch.UnknownSchemesFail | src/lib.rs:83-104 | no other scheme opens anything |
| Dispatch.SliceTextServes | src/slice.rs:258-273 | a slice text opens exactly when the window its numbers name lies in the inner bytes, and serves it |
| Dispatch.DataTextServes | src/data.rs:147-153 | a data text serves its payload, decoded as its header says |
| Dispatch.ConcatTextServes | src/concat.rs:292-305 | a concatenation text serves its segments one after the other, if all open and the total fits |
| Composition.NestedConcatIsRefused | src/concat.rs:187-204 | a concatenation as a segment is refused in any spelling |
| Composition.NestedSlicesCollapse | src/slice.rs:42-45 | nested slices open exactly when both windows fit, and then equal one slice at the sum of the offsets |
| Composition.SliceOfConcatIsConcatOfSlices | src/slice.rs:46-50 | as texts, a slice of a concatenation equals the concatenation of the slices |

## Left out

- `src/file.rs` and `src/scope.rs`: what a file URI opens is a table from URI texts to bytes; paths, canonical
  locations and their verdicts are not part of this model, nor is the UTF-8 check of decoded paths.
- `src/lib.rs` apart from `open_bytes`: registry plumbing and everything of `oxideav_core` are not part of this model.
- Real time and threads: a timeout is a step that may happen at any moment of a wait; mutex poisoning is not
  modelled, and joining the worker is a step that waits for its exit. The methods `ReadAhead` and `Reposition` of
  `Stacking.dfy` and those of `Buffered.dfy` run one step each; their interleavings are those of `Protocol.Run`.
- An unknown total length: `build` always stores the probed length, so `total_len` is a number here and the branch
  for a missing one is absent. The probed length is taken to be the true and stable length of the inner bytes, and
  failures of the three probing calls in `build` are not modelled.
- Stacking.Build: a fourfold block size that overflows is taken to panic, as overflow checks make it; without them it
  wraps around, which only `RingModel.Clamp` models. Running out of memory below `isize::MAX` is not modelled.
- Errors of grammars and openers are one value: texts and kinds are not distinguished. The fatal error of the worker
  is kept as its opaque pair of kind and message.
- Updates of the `mem://` table: an open reader shares an immutable buffer, so opening is modelled on a snapshot.
- `Box<dyn BytesSource>` is one class with a `kind` field: sources of other makes are not modelled under a composition,
  and leaves never fail or read short.
- ByteQueue.Deque.Extend: the storage has exactly the ring's capacity; growth policies of `VecDeque` are not modelled.
- UTF-8 validity of URI texts and 32-bit `usize`: texts are byte sequences and `usize` has 64 bits.
- Builder setters, `Display`, `is_empty` and the like, benches and fuzz targets are not part of this model.
