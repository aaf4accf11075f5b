# Lumyx, modelled and verified in Dafny

Lumyx drives LED shows: an audio pipeline analyses sound, a daemon plays a recorded show and puts it on
the wire for one or more nodes, a line protocol controls the daemon, and a console fans its events out to
browsers. This project models the parts of that system whose correctness spans many steps, and proves what
they are relied on for.

- **Audio.** The in-place radix-2 FFT (`Bits`, `BitReversal`, `Fft`, `Spectrum`) over exact complex numbers, with
  the roots of unity as a parameter, and what its kept half determines (`HalfSpectrum`); the lock-free
  single-producer single-consumer ring as interleaved atomic steps (`SpscRing`, on the wrapping counters of
  `WrappingIndex`), refining a bounded queue (`BoundedFifo`), and as an object for one thread (`RingBuffer`);
  the chunked downmix and the hop loop on top of it, in one thread (`Capture`) and beside a reader
  (`CaptureRuns`).
- **Control protocol.** UTF-8 (`Utf8`), the doubles integers are read as (`Doubles`), JSON values and their
  printed form (`Json`), the byte grammar (`JsonGrammar`) and the recursive-descent parser proved against it
  (`JsonParser`); which texts denote which values, said by writing them (`JsonTexts`), and that exactly these are
  accepted (`JsonDenotation`, `JsonSoundness`) and the others refused at their first defect (`JsonErrors`); the
  round trip (`JsonRoundTrip`), the hand-written reply lines (`ReplyLines`, `ControlProtocol`), the request reader
  (`Requests`), the bounded line loop of a connection (`LineReader`) and whole sessions (`Sessions`).
- **Pixels.** What a strip format puts on the wire (`PixelTypes`), the compiled mapping and its tables
  (`LayoutTables`, `Layout`), what applying it means (`Scatter`), and the linear layout (`LinearLayout`).
- **Playback.** The one-way file cursor (`FrameSource`), the output manager with slices, blackout and
  accounting (`OutputRig` as values, `Output` as objects), the tick, the keep-alive and the absolute-deadline
  loop (`Playback` as values, `Stage` as objects).
- **Console.** The drop-oldest fan-out as a machine of atomic steps (`FanoutSteps`) and as objects
  (`Fanout`), and the claim of the single upstream subscription (`Subscription`).

Where the source updates fields, arrays or buffers in place, so does the model: a class or an array, with
methods proved against a function of the old state. Lemmas then say what that function guarantees over whole
runs. Concurrent parts are state machines whose steps are single atomic accesses, and their lemmas are for all
interleavings, except those that exhibit one. Clocks, drivers, the show runtime and other threads are inputs.

Check everything with `dafny verify dfyconfig.toml`.

Places where the code and its own words differ, and what the model does:

- `as_u64` promises the exact integer or a refusal. The integer has been read as a double by then, and the
  guard compares with the largest 64-bit integer rounded to 2^64. `Requests.AsU64IsExact` says for exactly which
  plain integers on the wire the promise holds: others below 2^64 are silently changed to the nearest double, and
  2^64 and the 2048 integers after it become the largest 64-bit value.
- A four-digit escape is read by a hexadecimal reader that also accepts a leading plus sign; the grammar
  follows the code.
- `frame_at` promises the record with the greatest timestamp not past the position. The code finds, on files in
  order, the last record not past it, which keeps the promise; on other files it may find neither.
  `FrameSource.GreatestIffRestsGreatest` gives the exact condition for the promise,
  `FrameSource.FindsChosenIffOrdered` the one for the last such record from everywhere, and
  `FrameSource.HistoryFreeIffRestsInOrder` the weaker one under which the record it ends on does not depend on
  earlier calls. Small files on which each fails are given.
- Capturing pushes a mix in pieces and ignores how much of each was taken. Beside a reader that can leave a gap in
  what the ring receives (`CaptureRuns.GapIsReachable`); `CaptureRuns.CallStores` says exactly when it does, and
  `CaptureRuns.RoomyCallStoresAll` what a caller can rely on.
- The universe counter of the linear layout is 16 bits wide. The model wraps it, as an unchecked build does;
  `LinearLayout.OverlapExactly` says exactly when that makes pixels collide.
- The source panics when a linear layout runs out of universes; the model returns nothing there.

## Model

| member | source | states |
|---|---|---|
| `Fft.Transform` | crates/led-audio/src/fft.rs:44-84 | the in-place transform leaves, in every cell k, the naive sum of x[t] times the root to the power t*k, for every power-of-two length and every input |
| `Fft.StagesAreDft` | crates/led-audio/src/fft.rs:66-83 | the butterfly recursion over bit-reversed input equals the naive transform at every bin |
| `Fft.AllStages` | crates/led-audio/src/fft.rs:66-83 | the three nested butterfly loops compute that recursion on the array they overwrite |
| `Fft.ButterflyBlock` | crates/led-audio/src/fft.rs:72-80 | one block of butterflies with the accumulated twiddle combines its two halves, each twiddle being the exact power of the root |
| `Fft.CombinedBin` | crates/led-audio/src/fft.rs:72-80 | a butterfly pair turns the bins of the even and the odd samples into the two bins half a length apart |
| `BitReversal.NextReversed` | crates/led-audio/src/fft.rs:54-59 | the reversed-carry step turns the reversal of i - 1 into the reversal of i, at every power-of-two length |
| `Bits.SingleBit` | crates/led-audio/src/fft.rs:55-59 | on an index below the double of a single bit, testing, clearing and setting that bit are a comparison, a subtraction and an addition |
| `BitReversal.Permute` | crates/led-audio/src/fft.rs:51-63 | the swap loop leaves the array permuted by bit reversal, nothing lost or doubled |
| `BitReversal.RevInvolution` | crates/led-audio/src/fft.rs:51-63 | bit reversal is its own inverse, so a conditional swap per index suffices |
| `BitReversal.PermutedInvolution` | crates/led-audio/src/fft.rs:51-63 | permuting twice gives the samples back |
| `ComplexArithmetic.PolySplit` | crates/led-audio/src/fft.rs:72-80 | a sum over all samples is the sum over the even ones plus a twiddled sum over the odd ones |
| `Spectrum.MagnitudeSpectrum` | crates/led-audio/src/fft.rs:88-97 | each of the first n/2 bins is the root (a parameter) of the squared magnitude of the naive transform of the windowed samples |
| `Spectrum.MirroredBins` | crates/led-audio/src/fft.rs:88-97 | for real samples bin n - k is the conjugate of bin k, so every omitted bin but n/2 mirrors a kept one and has its magnitude |
| `HalfSpectrum.BinsDetermine` | crates/led-audio/src/fft.rs:44-84 | two inputs with the same bins are equal: the transform loses nothing, at every power-of-two length |
| `HalfSpectrum.KeptAndMiddleDetermine` | crates/led-audio/src/fft.rs:88-97 | two real inputs that agree on the kept bins agree on all bins, and are equal, exactly when they agree on bin n/2 |
| `HalfSpectrum.KeptDetermineUpToAlternation` | crates/led-audio/src/fft.rs:88-97 | what the cut loses: two real inputs have the same kept bins exactly when they differ by a constant times 1, -1, 1, -1, ... |
| `HalfSpectrum.KeptDecideIffWindowVanishes` | crates/led-audio/src/fft.rs:86-97 | behind a window the kept bins determine the windowed frame, and with it every omitted bin, exactly when the window is zero somewhere |
| `HalfSpectrum.HannKeepsAll` | crates/led-audio/src/fft.rs:35-41 | the Hann window is zero at its first sample, so behind it nothing is lost by the cut |
| `HalfSpectrum.SilentAlternation` | crates/led-audio/src/fft.rs:88-97 | behind a flat window of two samples the frame 1, -1 has the kept bin of silence and another omitted bin |
| `SpscRing.StepInv` | crates/audio-core/src/ring_buffer.rs:47-79 | every interleaved step of producer and consumer (index load, one cell access, index store) keeps the ring invariant, through counter wrap-around |
| `SpscRing.FreeIsExact` | crates/audio-core/src/ring_buffer.rs:48-50 | the free space computed from a stale read index never underflows and is exactly the room there was at the load |
| `SpscRing.AvailableIsExact` | crates/audio-core/src/ring_buffer.rs:65-69 | the count a consumer computes is what was queued at its load, and no more than is queued now |
| `SpscRing.RangesDisjoint` | crates/audio-core/src/ring_buffer.rs:52-56 | no cell a push in progress will write is one that a pop in progress will read |
| `SpscRing.StepRefinesFifo` | crates/audio-core/src/ring_buffer.rs:47-79 | seen from outside, every step is a step of a bounded queue whose calls note the fill when they begin: a push then takes exactly the longest prefix that fitted, a pop exactly the samples asked for, and it is refused only if they were not there |
| `SpscRing.RunRefinesFifo` | crates/audio-core/src/ring_buffer.rs:47-79 | so is every run, under every interleaving, and it leaves the queue that its calls lead to |
| `SpscRing.PrefixPopped` | crates/audio-core/src/ring_buffer.rs:47-79 | in every reachable state the samples popped are a prefix of those accepted |
| `SpscRing.RingIsFifo` | crates/audio-core/src/ring_buffer.rs:28-79 | a ring of any power-of-two capacity, from its creation and with 64-bit counters, is that bounded queue to its callers, and what is popped is a prefix of what was accepted, under every interleaving |
| `BoundedFifo.FifoConserves` | crates/audio-core/src/ring_buffer.rs:45-79 | over any behaviour of that queue, what was queued and what was taken in is what was given out and what is queued, in order |
| `SpscRing.Word64` | crates/audio-core/src/ring_buffer.rs:26-32 | 64-bit wrapping counters satisfy what the ring needs, for every power-of-two capacity they can express |
| `RingBuffer.Ring.constructor` | crates/audio-core/src/ring_buffer.rs:28-32 | a new ring is empty |
| `RingBuffer.Ring.Available` | crates/audio-core/src/ring_buffer.rs:39-43 | the wrapped difference is the number of queued samples |
| `RingBuffer.Ring.PushSlice` | crates/audio-core/src/ring_buffer.rs:47-59 | accepts exactly the longest prefix that fits and appends it (one thread; the interleaved form is in `SpscRing`) |
| `RingBuffer.Ring.PopExact` | crates/audio-core/src/ring_buffer.rs:64-79 | takes the oldest samples when enough are queued, and otherwise changes nothing |
| `WrappingIndex.MaskIsRemainder` | crates/audio-core/src/ring_buffer.rs:53-53 | masking with one less than a power of two is the wrap by it |
| `WrappingIndex.WrapIsRemainder` | crates/audio-core/src/ring_buffer.rs:53-53 | and that wrap is the remainder of division |
| `WrappingIndex.CellOfWrapped` | crates/audio-core/src/ring_buffer.rs:53-53 | masking a wrapped counter selects the same cell as the counter that never wraps |
| `WrappingIndex.DifferenceWraps` | crates/audio-core/src/ring_buffer.rs:42-42 | the wrapped difference of two counters less than a word apart is their true difference |
| `WrappingIndex.CellsDistinct` | crates/audio-core/src/ring_buffer.rs:52-56 | positions less than a capacity apart never share a cell |
| `Capture.PushDownmixed` | crates/audio-core/src/capture.rs:107-122 | pushes the mono mix of whole frames in its 256-sample pieces; while nobody reads the ring during the call it receives the prefix that fits, and the pieces are invisible |
| `CaptureRuns.CallStores` | crates/audio-core/src/capture.rs:107-122 | beside a reader, under every interleaving, one call adds the accepted parts of its pieces; that is a prefix of the mix when nothing is taken after a truncated piece, and for distinct samples only then |
| `CaptureRuns.RoomyCallStoresAll` | crates/audio-core/src/capture.rs:107-122 | a call that begins with room for its whole mix stores all of it, under every interleaving |
| `CaptureRuns.UnreadCallStoresFitting` | crates/audio-core/src/capture.rs:107-122 | a call during which no pop ends stores the prefix of its mix that fitted at its beginning |
| `CaptureRuns.GapRun` | crates/audio-core/src/capture.rs:107-122 | a hop read between a truncated piece and the next one lets the next one in whole: the ring receives the mix with a gap |
| `CaptureRuns.GapIsReachable` | crates/audio-core/src/capture.rs:107-122 | it happens to a new ring of 512 cells with 400 queued: 512 samples arrive as the first 112 and the last 256 |
| `CaptureRuns.LonePush` | crates/audio-core/src/ring_buffer.rs:47-59 | a push can run without interruption and then takes what fits now |
| `Capture.FittingBatches` | crates/audio-core/src/capture.rs:114-121 | pushing in batches into a ring that is not read meanwhile accepts exactly what pushing everything at once would |
| `Capture.MonoLength` | crates/audio-core/src/capture.rs:107-118 | the mono mix has one sample per complete frame; a trailing partial frame is dropped |
| `Capture.MonoAt` | crates/audio-core/src/capture.rs:107-118 | mono sample k is the average of frame k |
| `Capture.AverageMoves` | crates/audio-core/src/capture.rs:110-112 | every channel counts in that average, with weight one over their number |
| `Capture.AverageOfEqual` | crates/audio-core/src/capture.rs:110-112 | equal channels are mixed to what they carry |
| `Capture.Analyzer.ProcessHop` | crates/audio-core/src/analyzer.rs:70-72 | the window drops its oldest hop and ends with the new one |
| `Capture.WindowSlides` | crates/audio-core/src/analyzer.rs:70-72 | sliding by one hop is the same as recomputing the window from all samples so far |
| `Capture.WindowHolds` | crates/audio-core/src/analyzer.rs:70-72 | the window after some hops, element by element: zeros, then the samples in their places |
| `Capture.TimestampLags` | crates/audio-core/src/capture.rs:252-256 | a hop's timestamp is never ahead of the sound and at most a millisecond per hop behind |
| `Capture.NextHop` | crates/audio-core/src/capture.rs:254-254 | a hop is delivered exactly when a complete one is queued, and it is the next one |
| `Capture.AnalyzeAll` | crates/audio-core/src/capture.rs:240-259 | exactly floor(frames / 256) hops, the k-th over the last 1024 of the initial zeros and the first 256(k+1) mono samples, at k whole hop times |
| `JsonParser.ParseBytes` | crates/led-daemon-bin/src/json.rs:145-156 | the byte parser computes the grammar: the value, or the error and where it is |
| `JsonSoundness.ParseIsDenotation` | crates/led-daemon-bin/src/json.rs:145-321 | a text is accepted with a value exactly when it is some document with that meaning, nested no deeper than sixteen levels, with white space around it; documents are described by writing them, with any white space, escapes, hexadecimal case, numeral forms, and order and repetition of keys |
| `JsonDenotation.DocComplete` | crates/led-daemon-bin/src/json.rs:179-321 | every document, anywhere in a text and at any depth, is read as what it means, or refused as too deep |
| `JsonSoundness.ValueSound` | crates/led-daemon-bin/src/json.rs:179-321 | whatever is accepted as a value was written as some document there, and is read as what that means |
| `JsonSoundness.GarbageIsRefused` | crates/led-daemon-bin/src/json.rs:145-156 | whatever comes behind a document is refused at its first byte |
| `JsonSoundness.TooDeepIsSaid` | crates/led-daemon-bin/src/json.rs:180-182 | a document nested deeper than sixteen levels is refused for that |
| `JsonErrors.DeepRefused` | crates/led-daemon-bin/src/json.rs:179-321 | inside any number of open containers a defective value is refused as it would be alone, at its own position |
| `JsonErrors.ValueRefused` | crates/led-daemon-bin/src/json.rs:179-193 | where a value should start: the end of the text and what starts no value are refused there |
| `JsonErrors.StringRefused` | crates/led-daemon-bin/src/json.rs:195-251 | behind any pieces of a string, the end, a raw control character, and a defective escape or encoding are refused, each at its position |
| `JsonErrors.StringValueRefused` | crates/led-daemon-bin/src/json.rs:186-186 | and so is a value that is such a string |
| `JsonErrors.NumberValueRefused` | crates/led-daemon-bin/src/json.rs:253-263 | a run of number bytes that is no numeral is refused where it starts |
| `JsonErrors.ListRefused` | crates/led-daemon-bin/src/json.rs:265-286 | a list is refused for its first defective item, or for what stands where a comma or bracket should |
| `JsonErrors.KeyRefused` | crates/led-daemon-bin/src/json.rs:288-305 | behind any members, an object is refused where no key starts, for a defective key, or where its colon should be |
| `JsonErrors.MapRefused` | crates/led-daemon-bin/src/json.rs:288-320 | and for a defective value, or for what stands where a comma or brace should |
| `JsonErrors.TextRefused` | crates/led-daemon-bin/src/json.rs:145-156 | a whole text is refused for its value at the same position |
| `JsonParser.P.Value` | crates/led-daemon-bin/src/json.rs:179-193 | a value at a cursor, with the depth limit and the error position |
| `JsonParser.P.String` | crates/led-daemon-bin/src/json.rs:195-251 | a string with its escapes and multi-byte sequences |
| `JsonParser.P.Number` | crates/led-daemon-bin/src/json.rs:253-263 | the greedy run of number bytes and its value |
| `JsonParser.P.Array` | crates/led-daemon-bin/src/json.rs:265-286 | an array and where it ends |
| `JsonParser.P.Object` | crates/led-daemon-bin/src/json.rs:288-320 | an object, its fields inserted one by one |
| `JsonRoundTrip.ParseUndoesPrint` | crates/led-daemon-bin/src/json.rs:101-156 | parsing the printed form of a value with integers below 10^15 gives it back exactly when its nesting is within the limit, and says it is too deep otherwise |
| `JsonRoundTrip.ValueRoundTrip` | crates/led-daemon-bin/src/json.rs:101-321 | the same anywhere inside a text, at any depth |
| `JsonRoundTrip.ObjectRoundTrip` | crates/led-daemon-bin/src/json.rs:288-320 | fields written in any order, repeated or not, parse to the map of successive insertions |
| `JsonRoundTrip.StringRoundTrip` | crates/led-daemon-bin/src/json.rs:85-99 | unescaping undoes escaping for every text |
| `JsonRoundTrip.DecimalParses` | crates/led-daemon-bin/src/json.rs:106-112 | the integer form is read as the double nearest to that integer, negative or not |
| `JsonRoundTrip.PrintNoControl` | crates/led-daemon-bin/src/json.rs:85-136 | printed text never holds a control byte, so never a raw newline |
| `JsonRoundTrip.ValueWellFormed` | crates/led-daemon-bin/src/json.rs:253-320 | whatever the bytes, a parsed object has its keys once each and in order, and a parsed whole number is a double |
| `Json.EscapeText` | crates/led-daemon-bin/src/json.rs:85-99 | the escaping loop computes the escaped text, character by character |
| `Json.EscapeKeeps` | crates/led-daemon-bin/src/json.rs:85-99 | text without quotes, backslashes and control characters is left as it is |
| `Json.HexEscapes` | crates/led-daemon-bin/src/json.rs:94-94 | other control characters become four lower-case hexadecimal digits |
| `Json.InsertThenLookup` | crates/led-daemon-bin/src/json.rs:309-309 | inserting a key changes that key and no other |
| `Json.InsertKeepsSorted` | crates/led-daemon-bin/src/json.rs:290-309 | insertion keeps the map ordered |
| `Utf8.EncodeRoundTrip` | crates/led-daemon-bin/src/json.rs:232-248 | decoding undoes encoding, for every scalar sequence |
| `Utf8.DecodeRoundTrip` | crates/led-daemon-bin/src/json.rs:247-247 | a byte string that decodes is the encoding of what it decodes to: there is one well-formed form |
| `Utf8.EncodedForm` | crates/led-daemon-bin/src/json.rs:232-248 | the encoding is that of section 3 of RFC 3629: lead byte, six bits per further byte, no shorter form |
| `ReplyLines.WriteOkLine` | crates/led-daemon-bin/src/proto.rs:236-243 | the appending loop writes the success line |
| `ReplyLines.OkLineIsObject` | crates/led-daemon-bin/src/proto.rs:236-243 | a success line is the text of an object with the version, the decimal id, and those members; with an id below 10^15, the printed form of that object |
| `ReplyLines.ErrLineIsObject` | crates/led-daemon-bin/src/proto.rs:245-256 | an error line is the text of an object with the version, the decimal id or null, and those members; with an id below 10^15, the printed form of that object |
| `ReplyLines.EventLineIsObject` | crates/led-daemon-bin/src/proto.rs:258-260 | an event line is the printed form of an object with those members |
| `ControlProtocol.OkLineIsReadBack` | crates/led-daemon-bin/src/proto.rs:236-243 | a client that parses a success line gets version, ok, for any id the double nearest to it, and every extra member that is printable, within the depth limit and not named v, id or ok; the line has no control byte |
| `ControlProtocol.ErrLineIsReadBack` | crates/led-daemon-bin/src/proto.rs:245-256 | a client that parses an error line gets for any id the double nearest to it, or its absence, the code and the exact detail text; the line has no control byte |
| `ControlProtocol.HeadedIsReadBack` | crates/led-daemon-bin/src/proto.rs:236-256 | a reply with any id and any printable members is parsed to their last values behind that head, and is refused exactly when a member nests too deep |
| `ControlProtocol.IdIsExact` | crates/led-daemon-bin/src/proto.rs:236-256 | a 64-bit id is read back exactly when it is a double, so always up to 2^53 |
| `ControlProtocol.EventLineIsReadBack` | crates/led-daemon-bin/src/proto.rs:258-260 | an event line gives any printable payload within the depth limit back and carries no id; it has no control byte |
| `ControlProtocol.LineIsReadBack` | crates/led-daemon-bin/src/proto.rs:236-265 | any hand-assembled line of printable members parses to their last values, and is refused exactly when it nests too deep |
| `Requests.EveryOutcomeIsCorrelated` | crates/led-daemon-bin/src/proto.rs:157-231 | whatever is wrong with a request line, its refusal carries the id read from the line; an accepted one speaks the supported version |
| `Requests.RefusalReachesItsRequest` | crates/led-daemon-bin/src/proto.rs:157-256 | the reply to a refused line, whatever its detail, is read with exactly the id the line was read with, or none, for every id |
| `Requests.RefusalSaysWhy` | crates/led-daemon-bin/src/proto.rs:157-256 | the reply to a refused line carries the code of what is wrong with it: no JSON, no version, id or command name; another version; an unknown command; unusable arguments |
| `Requests.AcceptedIsNamed` | crates/led-daemon-bin/src/proto.rs:176-231 | an accepted command is the one that is named, with the arguments the request carries and the defaults for those it does not |
| `Requests.UnknownIffUnnamed` | crates/led-daemon-bin/src/proto.rs:224-226 | a name is refused as unknown exactly when no command has it |
| `Requests.ArgumentsRefused` | crates/led-daemon-bin/src/proto.rs:190-215 | arguments are refused exactly when loading without a path or seeking without a usable position |
| `Requests.AsU64IsCast` | crates/led-daemon-bin/src/json.rs:65-79 | what the conversion yields for any parsed value is a 64-bit double or the largest 64-bit integer |
| `Requests.RequestRoundTrip` | crates/led-daemon-bin/src/proto.rs:157-231 | every command written in the documented form, with numbers below 10^15, is read back exactly |
| `Requests.AsU64IsExact` | crates/led-daemon-bin/src/json.rs:65-79 | for a plain integer on the wire, the exact value or a refusal: exactly when it is a 64-bit integer that a double holds, the largest 64-bit one, or more than 2049 beyond that |
| `Requests.AsU64IsExactUpTo53` | crates/led-daemon-bin/src/json.rs:65-79 | every integer up to 2^53 is read exactly, and 2^53 + 1 is read as 2^53 |
| `Requests.NegativeIsRefused` | crates/led-daemon-bin/src/json.rs:71-72 | a negative integer is refused, however it rounds |
| `Doubles.RoundedIsNearest` | crates/led-daemon-bin/src/json.rs:262-262 | no double is nearer to an integer than the one it is read as |
| `Doubles.TiesGoToEven` | crates/led-daemon-bin/src/json.rs:262-262 | of two doubles equally near the even one is taken |
| `Doubles.RoundedIsDouble` | crates/led-daemon-bin/src/json.rs:262-262 | what an integer is read as has at most 53 significant bits |
| `Doubles.RoundedKeepsDoubles` | crates/led-daemon-bin/src/json.rs:262-262 | exactly the integers that are doubles are read unchanged |
| `Doubles.RoundedAtMost64` | crates/led-daemon-bin/src/json.rs:71-71 | the guard of the conversion lets through exactly the integers up to 2^64 + 2048 |
| `Doubles.OverflowsFrom1024` | crates/led-daemon-bin/src/json.rs:262-262 | an integer is read as infinity exactly when its rounded value reaches 2^1024 |
| `LineReader.Connection.ReadUntil` | crates/led-daemon-bin/src/server.rs:256-256 | a bounded read takes up to and including the next newline, the limit or the end, whichever is first |
| `LineReader.Connection.Handle` | crates/led-daemon-bin/src/server.rs:247-298 | exactly the segments before the first oversized or undecodable one are served, nothing past it is consumed, an oversized one is refused once, and the buffer never exceeds 64 KiB and one byte |
| `LineReader.SegmentsOfText` | crates/led-daemon-bin/src/server.rs:247-283 | the segments are the lines the client wrote, with or without a final newline |
| `LineReader.TextOfSegments` | crates/led-daemon-bin/src/server.rs:247-283 | the segments, terminated again, are the stream: no byte is lost or moved between lines |
| `LineReader.AdmittedIsLongest` | crates/led-daemon-bin/src/server.rs:262-283 | the served segments are the longest readable prefix, and the reason to stop is the first defect |
| `LineReader.TrimReturnsOnly` | crates/led-daemon-bin/src/server.rs:277-278 | all trailing carriage returns of a line are taken off, and nothing else |
| `LineReader.SpacesAreListed` | crates/led-daemon-bin/src/server.rs:279-281 | the white space of a blank line is what Unicode lists with that property |
| `LineReader.OneOutcomePerLine` | crates/led-daemon-bin/src/server.rs:277-298 | each served line has one outcome, in order, with its own id; only blank ones go unanswered |
| `LineReader.HandshakeFirst` | crates/led-daemon-bin/src/server.rs:293-303 | no command runs on a connection before a hello has |
| `LineReader.EachLineAnswered` | crates/led-daemon-bin/src/server.rs:277-303 | each served line leads to what it asks for: its refusal, its run once a hello has been accepted or if it is one, and the demand for a hello before |
| `Sessions.SessionRuns` | crates/led-daemon-bin/src/server.rs:247-332 | a client that says hello first and writes documented requests on lines of at most 64 KiB gets each of them run once, in order, and nothing else |
| `Sessions.BlankIsNoRequest` | crates/led-daemon-bin/src/server.rs:279-281 | a line that is ignored as blank would have been refused as no request |
| `PixelTypes.WireKeepsColor` | crates/led-core/src/types.rs:30-138 | no format loses colour: the logical channels can be recovered from the wire bytes |
| `PixelTypes.WireCarries` | crates/led-core/src/types.rs:30-138 | the bytes of every format: three channels are the colour; an unused white is 0; an added one is the least channel on top of the whole colour; a subtracted one is taken out of each channel and leaves one dark |
| `PixelTypes.BlackIsDark` | crates/led-core/src/types.rs:107-138 | black is dark in every format |
| `PixelTypes.SubtractionSavesCurrent` | crates/led-core/src/types.rs:56-61 | subtracting draws exactly three times the common part less than adding |
| `PixelTypes.SubtractedLeavesOneDark` | crates/led-core/src/types.rs:80-92 | with subtracted white at least one coloured channel is dark |
| `LayoutTables.GroupByDevice` | crates/led-core/src/mapping.rs:45-57 | devices in first-seen order, each with its distinct universes in first-seen order |
| `LayoutTables.FirstSeenInOrder` | crates/led-core/src/mapping.rs:45-57 | that order is the order of first occurrence |
| `LayoutTables.LayOut` | crates/led-core/src/mapping.rs:59-70 | the groups become contiguous blocks, and every row is found under its own pair |
| `LayoutTables.RangeIsExactlyTheDevice` | crates/led-core/src/mapping.rs:144-146 | a device range is found exactly when a pixel uses the device, and is exactly the rows of that device |
| `Layout.Compile` | crates/led-core/src/mapping.rs:43-78 | one target per pixel into the row of its device and universe; rows distinct; blocks contiguous, disjoint, covering scratch, in first-seen order |
| `Layout.CompiledLayout.MakeScratch` | crates/led-core/src/mapping.rs:120-125 | one dark row of 512 bytes per universe |
| `Layout.CompiledLayout.Apply` | crates/led-core/src/mapping.rs:128-137 | scatters a frame in place; pixels past the layout are ignored and untouched bytes keep their value |
| `Layout.WritePixel` | crates/led-core/src/types.rs:120-138 | overwrites exactly the bytes of one pixel in one row |
| `Scatter.CompiledShowsFrames` | crates/led-core/src/mapping.rs:43-137 | compile then apply over any sequence of frames leaves every (device, universe, byte) as writing each pixel into a map directly would |
| `Scatter.EveryPixelShows` | crates/led-core/src/mapping.rs:128-137 | when no two pixels overlap, each shows its own colour in full |
| `Scatter.DarkScratchShowsNothing` | crates/led-core/src/mapping.rs:120-125 | fresh scratch shows the empty image |
| `LinearLayout.Assign` | crates/led-core/src/mapping.rs:92-117 | the counting loops equal the closed form: pixel p in slot p / (512 / stride) at channel (p mod (512 / stride)) * stride; success exactly when the pixels fit |
| `LinearLayout.Slots` | crates/led-core/src/mapping.rs:94-101 | the slots carry their device and a universe number that wraps at 16 bits |
| `LinearLayout.OwnerIs` | crates/led-core/src/mapping.rs:94-101 | slots are dealt out device by device, in order, as many to each as it has universes |
| `LinearLayout.LinearFormat` | crates/led-core/src/mapping.rs:92-117 | the linear layout is the compilation of those destinations |
| `LinearLayout.ChannelOf` | crates/led-core/src/mapping.rs:103-115 | no pixel leaves its universe |
| `LinearLayout.OverlapExactly` | crates/led-core/src/mapping.rs:92-117 | two pixels share a byte exactly when one device owns both and they are whole turns of the universe counter apart |
| `LinearLayout.SpansApart` | crates/led-core/src/mapping.rs:92-117 | with distinct device ids, or at most 65536 universes, no two pixels share a byte |
| `LinearLayout.WrapCanCollide` | crates/led-core/src/mapping.rs:95-101 | without either they can: an example |
| `LinearLayout.StripShowsFrame` | crates/led-core/src/mapping.rs:92-137 | a frame on such a layout shows each of its pixels at its place |
| `FrameSource.Source.constructor` | crates/led-daemon-bin/src/source.rs:31-37 | an opened source stands on the first record with the second already read |
| `FrameSource.Source.Reopen` | crates/led-daemon-bin/src/source.rs:39-45 | reopening stands on the first record again |
| `FrameSource.Source.FrameAt` | crates/led-daemon-bin/src/source.rs:51-70 | the cursor ends where the seek rule says, for every file; on an ordered one the answer depends on the position alone |
| `FrameSource.SeekFindsChosen` | crates/led-daemon-bin/src/source.rs:47-70 | from wherever the cursor is, the last record not past the position, or the first |
| `FrameSource.ChosenIsLast` | crates/led-daemon-bin/src/source.rs:47-50 | that record is the last with a timestamp not past the position |
| `FrameSource.FindsChosenIffOrdered` | crates/led-daemon-bin/src/source.rs:51-70 | every seek, from wherever the cursor is put, finds the record it should exactly for files whose records after the first are in order |
| `FrameSource.HistoryFreeIffRestsInOrder` | crates/led-daemon-bin/src/source.rs:51-70 | which record a seek ends on is independent of every earlier seek exactly when no record a seek can come to rest on is earlier than one passed on the way to it |
| `FrameSource.AnswersHistoryFreeIffRestsInOrder` | crates/led-daemon-bin/src/source.rs:51-70 | the same about the frames shown, for a file that holds no record twice |
| `FrameSource.OutOfOrderCanBeHistoryFree` | crates/led-daemon-bin/src/source.rs:51-70 | a file out of order on which earlier seeks still do not matter |
| `FrameSource.GreatestIffRestsGreatest` | crates/led-daemon-bin/src/source.rs:47-70 | the documented promise, the greatest timestamp not past the position or the first record, is kept after every history exactly when no record of the file lies in time between a record a seek can come to rest on and the one after it, and none but those of the first instant before the second record |
| `FrameSource.OrderedIsGreatest` | crates/led-daemon-bin/src/source.rs:47-70 | files in order keep that promise |
| `FrameSource.OutOfOrderCanMissGreatest` | crates/led-daemon-bin/src/source.rs:47-70 | a file of two records on which the promise fails |
| `FrameSource.UnorderedRemembers` | crates/led-daemon-bin/src/source.rs:51-70 | an unordered file on which an earlier seek changes the answer |
| `Output.OutputManager.constructor` | crates/led-daemon-bin/src/output.rs:766-844 | a rig opens dark, uncounted and without blackout, with black as long as its longest consumer |
| `Output.OutputManager.Engage` | crates/led-daemon-bin/src/output.rs:854-856 | the blackout latches, and the answer says whether it changed |
| `Output.OutputManager.Lift` | crates/led-daemon-bin/src/output.rs:862-864 | lifting it, likewise |
| `Output.OutputManager.Calibrate` | crates/led-daemon-bin/src/output.rs:906-919 | each channel of each pixel is corrected, whatever the frame length before |
| `Output.OutputManager.Send` | crates/led-daemon-bin/src/output.rs:902-921 | one send changes the rig by exactly one step of the model and returns the first failing node's error |
| `Output.OutputManager.FanOut` | crates/led-daemon-bin/src/output.rs:925-995 | every node is attempted, with one verdict read before the first, and counted per node and in aggregate |
| `Output.NodeOutput.Deliver` | crates/led-daemon-bin/src/output.rs:932-988 | one node's share: masked, as it is, or through its slice buffer |
| `Output.NodeOutput.Refresh` | crates/led-daemon-bin/src/output.rs:965-972 | a frame replaces what it reaches of the slice and leaves the rest |
| `OutputRig.AfterIsAccounted` | crates/led-daemon-bin/src/output.rs:925-995 | from any accounted state, a run of sends, failures and toggles keeps the account |
| `OutputRig.RunIsAccounted` | crates/led-daemon-bin/src/output.rs:925-995 | over any run of sends, failures and blackout toggles: frames + errors per node is the number of sends, each node was handed one frame per send, aggregates are the sums |
| `OutputRig.BufferIsLatest` | crates/led-daemon-bin/src/output.rs:961-973 | in every run of a rig that uses its slice buffers, which is any but a lone node that starts at pixel 0, each buffer cell shows the calibrated pixel of the latest unmasked frame that reached it, dark before any |
| `OutputRig.HandedIsCalibrated` | crates/led-daemon-bin/src/output.rs:906-973 | what a send hands a node: black under a blackout it does not escape; otherwise at each place the pixel of the frame there, every channel through the table on its own, and what was there before where the frame does not reach |
| `OutputRig.IdentityTable` | crates/led-daemon-bin/src/output.rs:906-919 | a table that maps every value to itself hands out what no table does |
| `OutputRig.CountedAsAnswered` | crates/led-daemon-bin/src/output.rs:975-988 | over any run a node's frames are the sends it delivered and its errors those it failed |
| `OutputRig.FrameReassembles` | crates/led-daemon-bin/src/output.rs:959-973 | over slices that tile the show, what the nodes are handed from a full frame is that frame |
| `OutputRig.OneVerdict` | crates/led-daemon-bin/src/output.rs:927-960 | all nodes of a frame share one verdict, even if the flag changes meanwhile; escaping nodes are handed what they would be without a blackout |
| `OutputRig.BlackKeepsLength` | crates/led-daemon-bin/src/output.rs:939-958 | black has the length the node would be handed, exactly except when the lone node gets a frame longer than the black set aside |
| `OutputRig.FirstErrorIsFirst` | crates/led-daemon-bin/src/output.rs:975-994 | the error returned is that of the least failing node, and success means no node failed |
| `Stage.Stage.Beat` | crates/led-hal/src/heartbeat.rs:33-41 | the keep-alive resends the recorded frame, or sends nothing |
| `Stage.Stage.KeepAlive` | crates/led-daemon-bin/src/stage.rs:106-121 | it is owed 800 ms after the last success, and a failure leaves it owed |
| `Stage.Stage.OnTick` | crates/led-daemon-bin/src/stage.rs:85-122 | one tick changes cursor, recorded frame, last success and rig as the model says, and reports what it did |
| `Stage.Pacer.SleepUntil` | crates/led-daemon-bin/src/pacer.rs:76-80 | waiting never returns early and never turns the clock back |
| `Stage.TickStage` | crates/led-daemon-bin/src/run.rs:199-216 | one tick of the loop: the stage and the rig move as the tick says, and the first failure is remembered |
| `Stage.RunLoop` | crates/led-daemon-bin/src/run.rs:300-339 | the loop runs exactly the turns before its first reason to stop, waits once per tick, is the modelled run, and leaves the rig as that run's sends do one after the other |
| `Stage.StopsWhenTold` | crates/led-daemon-bin/src/run.rs:300-339 | no turn after a shutdown was requested, none beyond the limit, none after the end of the show if that ends it; and the reason given is the one that applies |
| `Stage.PunctualLoop` | crates/led-daemon-bin/src/run.rs:300-334 | a loop that is never late wakes at every multiple of the configured tick, of at least a millisecond |
| `Playback.RunIsPaced` | crates/led-daemon-bin/src/run.rs:303-334 | the next deadline is never due and never more than a period off; ticks and skips bound the elapsed time from both sides, so lateness never becomes debt |
| `Playback.SkipsAreWholePeriods` | crates/led-daemon-bin/src/run.rs:325-334 | the ticks reported as skipped are the whole periods by which the deadline was missed |
| `Playback.RunHasNoGap` | crates/led-daemon-bin/src/stage.rs:85-122 | once one send has succeeded, consecutive attempts are less than 800 + period + lateness apart, whatever the states and later failures |
| `Playback.HeldExactlyWhenOwed` | crates/led-daemon-bin/src/stage.rs:106-121 | in a turn without a new frame there is an attempt exactly when 800 ms have passed since one was last delivered: a silent show is resent, and not sooner |
| `Playback.ReportSays` | crates/led-daemon-bin/src/stage.rs:85-122 | what a tick reports: sent at its position, held, quiet, or the error, each exactly when that happened |
| `Playback.SilenceStaysUnderCeiling` | crates/led-daemon-bin/src/stage.rs:32-36 | with period and lateness at most 1600 ms together, the gap stays under 2400 ms |
| `Playback.SendsAreAttempts` | crates/led-daemon-bin/src/stage.rs:85-122 | what the output is sent over a run is its attempts, one for one: the same frames, answered alike |
| `Playback.WireShowsLatest` | crates/led-daemon-bin/src/stage.rs:85-122 | for every file, every attempt carries the frame the show had in its last playing turn, the one the cursor reached by the positions played, and every playing turn makes one |
| `Playback.LastShownIsChosen` | crates/led-daemon-bin/src/source.rs:47-70 | where resting places are in order that frame follows from the last position alone, and on a file in order it is the record that position asks for |
| `FanoutSteps.StepInv` | crates/led-console-bin/src/fanout.rs:43-250 | every join, leave, delivery, read and tally keeps each browser's account and the balance of losses |
| `FanoutSteps.BrowserAccount` | crates/led-console-bin/src/fanout.rs:45-66 | in any run, read + pending + dropped = broadcast since joining; pending is the most recent, within capacity; reads go forward |
| `FanoutSteps.TakenOk` | crates/led-console-bin/src/fanout.rs:44-46 | what a browser reads is its oldest pending message |
| `FanoutSteps.OfferedKeepsRecent` | crates/led-console-bin/src/fanout.rs:56-66 | a delivery drops from the old end only |
| `FanoutSteps.DeliveryLosesOneAtMost` | crates/led-console-bin/src/fanout.rs:56-66 | a delivery drops the oldest message of a full queue, one, and otherwise nothing |
| `FanoutSteps.UnreadQueueIsLatest` | crates/led-console-bin/src/fanout.rs:45-66 | in any run a browser that never reads has exactly the latest messages pending, as many as were broadcast since it joined or as its capacity holds |
| `FanoutSteps.LeaveRemovesOnly` | crates/led-console-bin/src/fanout.rs:233-235 | leaving takes that browser off the list and no other |
| `FanoutSteps.ReadTakesOldest` | crates/led-console-bin/src/fanout.rs:43-46 | a read takes the oldest message from that browser, which is the log at the position noted, and touches nothing else |
| `FanoutSteps.GlobalAccount` | crates/led-console-bin/src/fanout.rs:236-250 | when no broadcast is under way the global counter is the losses of every browser ever connected |
| `FanoutSteps.GlobalNeverFalls` | crates/led-console-bin/src/fanout.rs:233-250 | it never falls, not when a browser leaves either |
| `FanoutSteps.BroadcastedIs` | crates/led-console-bin/src/fanout.rs:242-250 | a broadcast without interference delivers to everyone once and adds the losses up |
| `Fanout.Subscriber.Next` | crates/led-console-bin/src/fanout.rs:44-46 | takes the oldest pending message |
| `Fanout.Subscriber.Deliver` | crates/led-console-bin/src/fanout.rs:56-66 | the drop-oldest loop, with its count |
| `Fanout.Fanout.constructor` | crates/led-console-bin/src/fanout.rs:145-147 | a capacity of at least one |
| `Fanout.Fanout.Connect` | crates/led-console-bin/src/fanout.rs:224-229 | a new browser starts at the end of the log, with a new id |
| `Fanout.Fanout.Disconnect` | crates/led-console-bin/src/fanout.rs:233-235 | exactly the browser with that id leaves, and its losses stay counted |
| `Fanout.Fanout.Broadcast` | crates/led-console-bin/src/fanout.rs:242-250 | delivers in place to every browser and equals the machine's whole broadcast |
| `Subscription.StepInv` | crates/led-console-bin/src/fanout.rs:116-132 | every step of claim, establish and two-step release keeps one guard at most, the claim equal to its existence, and the gauge equal to its flow |
| `Subscription.NeverTwo` | crates/led-console-bin/src/fanout.rs:216-221 | in every reachable state established implies claimed, and a claim succeeds exactly when nothing is claimed, which is when every earlier flow is marked down |
| `Subscription.HolderCanGiveUp` | crates/led-console-bin/src/fanout.rs:116-132 | a guard can always be given up by its holder alone, and then nothing is claimed |
| `Subscription.SubscriptionsCounted` | crates/led-console-bin/src/fanout.rs:116-132 | the counter counts every subscription once |
| `Subscription.HeldUntilFreed` | crates/led-console-bin/src/fanout.rs:116-132 | nobody else's steps take a guard away |
| `Subscription.NextClaimWaits` | crates/led-console-bin/src/http.rs:141-171 | between two successful claims the first guard was first marked down and then given up |
| `Subscription.Supervise` | crates/led-console-bin/src/http.rs:146-169 | the waits between attempts double from 50 ms to a ceiling of 5 s and start over after a flow |

## Left out

- Memory ordering: every atomic access is one sequentially consistent step; acquire and release reordering is not modelled, in the ring, the fan-out or the subscription.
- `f32` arithmetic: samples and complex numbers are exact reals; sine, cosine and square roots are not computed (roots of unity and the root are parameters), and the Hann window is any window of the right length, except where `HalfSpectrum.HannKeepsAll` uses that the cosine of 0 is 1.
- HalfSpectrum.KeptDecideIffWindowVanishes: about the complex bins; what their magnitudes, which the source returns, determine is not stated.
- The `f64` value of JSON numbers that are not plain integers: their text is kept, and what `as_u64` makes of it is a parameter of which only the range is known. Plain integers are rounded as `f64` parsing does.
- JsonRoundTrip.ParseUndoesPrint: numbers from 10^15 on and fractions are left to the printer of `f64`, which is not part of this model.
- JsonErrors.DeepRefused: which texts are refused is stated exactly (`JsonSoundness.ParseIsDenotation`); that each of them has one of the defects described in `JsonErrors` is not stated.
- FrameSource.AnswersHistoryFreeIffRestsInOrder: with identical records in the file, different places can show the same frame, so there the condition is sufficient and not always needed.
- Error texts: codes, ids and positions are modelled, message wording is not.
- Capture.AnalyzeAll: the ring is assumed to be smaller than half the counter range, which memory guarantees.
- Spectral features, beat, tempo, harmony, section and instrument detection, and the other sample formats of the downmix: heuristics or repetitions of what is modelled.
- What a command does to the runtime and answers, shutdown tokens, and the event writer of `subscribe`; socket read and write errors, which end a connection early.
- Read-ahead of the buffered reader: the position proved about is what the loop has consumed, not what the socket has delivered.
- `universe_count`, which truncates to 16 bits, `device_universes` and `devices`: lookups in tables the model states in full.
- Layout.CompiledLayout.Apply: a pixel whose bytes leave its universe makes the source panic, so the method requires that none does.
- Scatter rows are one two-dimensional array; the universe number stored beside each row is the layout's own list.
- Read errors of the show file, whose recovery the code leaves open: on one, a playing tick neither sends nor keeps alive, so `Playback.RunHasNoGap` is about files that can be read.
- `led_hardware_profile::repartir` and `OutputConfig`: that slices tile the show is an assumption of `OutputRig.FrameReassembles`; the choice between a calibration table and none is an input.
- Drivers (DDP, Art-Net, sACN, `Hal`), `universe_count` of the output, and locks: a driver takes a frame and answers; locking inside one send is not modelled beyond the blackout flag changing under it.
- Playback.RunIsPaced: the lateness of a wake-up includes the work of the tick before it; clock values are unbounded integers.
- The loop with the control plane attached (`run_with_control_com`), preflight, the journal beyond the first warned failure, and the loop without a stage.
- Fanout.Subscriber.Next: a browser's read is proved as a method on its own queue; interleaved with deliveries it is the `Read` step of `FanoutSteps`.
- FanoutSteps.StepInv: taking an id and entering the list are one step; in the source two browsers joining at once may enter in either order.
- `descartados_totais`, the attempt counter, start-up time and the text of the console's HTTP answers.
- Subscription.StepInv: a panic between counting a subscription and marking it established is not modelled; the drop of the guard is, from every other phase.
- User interface, packet formats, recorders, simulators, audit and packaging tools.
