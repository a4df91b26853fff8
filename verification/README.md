# Verified model of a DMR receiver's digital core

A DMR receiver turns raw IQ bytes from a radio into reports of voice calls and positions.
This project models the parts of it that compute: the lock-free ring buffer between the
capture thread and the demodulator, the channel filter, FM discriminator, timing recovery
and slicer, burst synchronisation, the two timeslots' state machines, the BPTC(196,96)
decoder, the link-control and position parsers, and the handler that joins them. Each
stage that works in place is modelled in place, as a class or a method over arrays, and is
proved equal to a function of its whole input; the theorems are about those functions.

## What is proved

* **Decoder** (`Hamming`, `Bptc`, `BptcEncoder`, `BptcLayout`, `BptcPower`, `BptcRadius`). The two in-place
  correctors are exact nearest-codeword decoders. Decoding is translation-equivariant. One
  data row may be lost altogether, one column may hold anything in its parity rows, and
  every other data row may have a flip: the message is still recovered. It follows that
  the guaranteed radius is exactly three flipped bits among the 196 received, that at most
  two flips also keep the verdict positive, and that a lost row or a lost column is
  repaired. The verdict is characterised on all inputs, and every message bit is followed to
  its place in the transmission.
* **Ring buffer** (`Words`, `RingBuffer`, `RingProtocol`, `RingTheorems`,
  `RingAlignment`).
  Every interleaving of one writer and one reader, byte by byte, in any order within a
  copy, with stale looks at each other's counter and with counters that wrap around,
  refines a bounded FIFO; the two sides never touch the same cell; bytes are conserved and
  overruns are counted exactly; whole groups of bytes stay whole; a polled amount can be read.
* **Burst synchronisation** (`SyncWords`, `DibitStream`, `BurstScan`, `BurstTiming`, `History`,
  `BurstSync`, `SlotManager`).
  The machine emits exactly the bursts of a declarative scan of the dibit stream, and that
  scan is unique. A burst is out with the 59th dibit after its sync word, the 60th may match
  again, and of bursts that follow each other without a pause none is lost. Classification
  does not depend on the order of the comparisons. Slot states are a function of the slot's
  last two bursts.
* **Timing and slicing** (`TimingRecovery`, `TimingLoop`, `FskSlicer`), over the reals. The
  timing loop is a machine over its fields for any configuration; for periods of one to
  twelve samples no input makes it read outside of its history, and it emits the
  linear interpolants of its input at the sums of the periods used, whatever the loop filter
  does. Negating all symbols mirrors the slicer's dibits exactly off the thresholds, its
  levels approach equal outer symbols geometrically, and over all symbol streams a symbol's
  update of the slicer never changes its own decision exactly when the outer region starts
  no lower than half of the outer level.
* **Chain** (`ChannelFilter`, `FmDiscriminator`, `DemodChain`, `LcParser`, `Layer2`, `Receiver`).
  The filter is additive and has its taps as impulse response; its oscillator is the power
  of its step, and renormalising it changes nothing over the reals. The events of an input
  do not depend on how it is cut into blocks. For any message that is encoded, sent with at
  most four errors in its sync word and two in its payload, and heard by a hunting
  synchroniser, the report is the one that the sender's own bits call for: a voice call with
  its identities, a position with its coordinates. For raw input in which bursts without a
  pause are heard, every message of the succession is reported, in order
  (`EveryMessageIsReported`).

## Where the code and its documentation disagree

The model follows the code.

* `bptc19696.h:69-71` and `bptc19696.h:83-85` promise that double errors are detected. The row
  code is perfect, so a row is never rejected (`RowIsNearestCodeword`) and two flips in a row
  are always turned into another codeword (`RowDoubleFlipIsMiscorrected`). The verdict
  depends on the columns alone (`VerdictIsColumnSyndrome`). `bptc19696.h:87-89` promises the
  same of a column: two flips there are noticed exactly when their syndromes add up to 14
  or 15 (`ColDoubleFlipIsAcceptedIff`), which some pairs do and others do not
  (`ColDoubleFlipGoesBothWays`).
* `bptc19696.h:52` claims all single-bit errors; the radius is three (`ThreeFlipsAreCorrected`,
  `FourFlipsCanDeceive`).
* `bptc19696.h:56-57` says that positions 1 and 2 of the row code are removed in the column
  code. The code removes the last two data cells (`ColPosition`).
* `bptc19696.h:25-27` gives the interleaver as i(n) = 181n mod 196. The de-interleaver inverts
  the gather reading of it, not the scatter reading (`InterleaveInverts`, `ScatterRoundTrip`,
  `ScatterIsNotInverted`).
* `fsk_slicer.h:41-44` compares strictly; the code assigns a symbol on a threshold to the level
  above it. Code and documentation give the same dibits for a stream exactly when none of
  its symbols lies on a threshold (`LevelIsStrictIff`, `DibitsAreStrictIff`); a first symbol
  of zero is an input on which they differ (`ZeroIsNotStrict`).
* `timing_recovery.h:37-41` updates the period with the integrator before its own update; the code
  updates the integrator first. The clamped periods agree exactly when the integral step
  is zero or the clamp hides it (`PeriodIsDocumentedIff`); six samples of one are an input on
  which they differ (`PeriodIsNotDocumented`).
* `lc_parser.cpp:58` asks for identities that are not zero; the code rejects only two zeros
  (`VoiceLcIsRecovered`).
* `slot_manager.h:21-22` draws an arrow from DATA to IDLE and a timeout. Neither exists:
  `kMissTimeout` and `miss_count` drive no transition (`StateIsLastTwoBursts`).

## Model

| member | source | states |
|---|---|---|
| Hamming.CorrectRow | bptc19696.cpp:19-47 | In place: the row and the verdict become those of the row corrector's specification |
| Hamming.CorrectCol | bptc19696.cpp:51-75 | In place: the column and the verdict become those of the column corrector's specification |
| Hamming.RowEquations | bptc19696.cpp:29-38 | The four XOR chains are the parities over the declared cell lists, parity cell last |
| Hamming.ColEquations | bptc19696.cpp:58-66 | The same for the shortened code's chains |
| Hamming.RowTable | bptc19696.h:93-110 | The row table inverts the map from cells to syndromes on all fifteen nonzero syndromes |
| Hamming.ColTable | bptc19696.h:114-131 | The column table inverts it on 1 to 13, and only 14 and 15 have no cell |
| Hamming.ColPosition | bptc19696.cpp:55-56 | A column cell disturbs the same checks as the row cell it comes from; the cells absent are data cells 9 and 10 |
| Hamming.RowIsNearestCodeword | bptc19696.cpp:40-46 | A row is never rejected; the result is a codeword at most one flip away |
| Hamming.RowUnique | bptc19696.cpp:40-46 | Any codeword within one flip of a row is the corrector's result |
| Hamming.RowDoubleFlipIsMiscorrected | bptc19696.cpp:42-46 | Two flips in a row are always accepted and turned into a different codeword |
| Hamming.ColIsNearestCodeword | bptc19696.cpp:68-74 | A column is accepted iff some codeword is within one flip, iff its syndrome is below 14; then the result is that codeword, else nothing changes |
| Hamming.ColDoubleFlipIsAcceptedIff | bptc19696.h:87-89 | Two flips in a column are accepted, always as another codeword, iff their syndromes do not add up to 14 or 15 |
| Hamming.ColDoubleFlipGoesBothWays | bptc19696.h:87-89 | In every column codeword one pair of flips goes unnoticed and another is noticed |
| Hamming.ColUnique | bptc19696.cpp:68-74 | Any codeword within one flip of a column is the corrector's result |
| Hamming.FixRowPlus | bptc19696.cpp:19-47 | Adding a row codeword passes through row correction, verdict unchanged |
| Hamming.FixColPlus | bptc19696.cpp:51-75 | Adding a column codeword passes through column correction, verdict unchanged |
| Bptc.Deinterleave | bptc19696.cpp:9-15 | The output array is the input read at steps of 13 modulo 196 |
| Bptc.Unpack | bptc19696.cpp:83-87 | Each dibit gives its high bit, then its low bit, ignoring the other bits of the byte |
| Bptc.CorrectRows | bptc19696.cpp:101-111 | In place: rows 0 to 8 of the matrix are corrected, the rest untouched; positive iff every row was accepted |
| Bptc.CorrectCols | bptc19696.cpp:114-123 | In place: all fifteen columns are corrected; positive iff every column was accepted |
| Bptc.Extract | bptc19696.cpp:138-143 | The 96 output bits are the data cells in row order without the last three |
| Bptc.Decode | bptc19696.cpp:79-146 | Output and verdict are those of the three-pass specification, the second row pass not affecting the verdict |
| BptcEncoder.EncodeIsCode | bptc19696.h:31-46 | The encoder's matrix satisfies all row and column equations and carries the message in the places the decoder reads |
| BptcEncoder.InterleaveInverts | bptc19696.cpp:10-14 | De-interleaving and gather interleaving are inverse, both ways |
| BptcEncoder.PackingInverts | bptc19696.cpp:83-87 | Unpacking recovers any 196 bits packed into dibits |
| BptcEncoder.TransmitIsReceived | bptc19696.cpp:83-98 | Receiving what the encoder transmits gives back its matrix |
| BptcEncoder.ScatterRoundTrip | bptc19696.h:25-27 | Under the scatter reading the round trip holds iff the word is invariant under k to 169k mod 196 |
| BptcEncoder.ScatterIsNotInverted | bptc19696.h:25-27 | A concrete word for which the scatter reading is not inverted |
| BptcLayout.DibitIsTwoBits | bptc19696.cpp:84-87 | A dibit arrives as its high bit and then its low bit |
| BptcLayout.CellTravels | bptc19696.h:25-27 | Cell (r, c) of the matrix is sent as bit 13(15r + c) mod 196, high bits of dibits first |
| BptcLayout.MessageBitTravels | bptc19696.cpp:135-143 | Message bit i is sent unchanged from row i / 11, column i mod 11 |
| BptcLayout.RowPassMeaning | bptc19696.cpp:100-111 | Rows 0 to 8 become codewords at most one flip away; rows 9 to 12 stay as they are |
| BptcLayout.ColPassMeaning | bptc19696.cpp:113-124 | A column becomes a codeword at most one flip away if there is one, and otherwise stays as it is |
| BptcPower.CorrectedPlus | bptc19696.cpp:101-133 | Adding a codeword passes through all three passes and leaves acceptance alone |
| BptcPower.DecodingIsEquivariant | bptc19696.cpp:79-146 | On top of any received word, adding a transmitted message keeps the verdict and adds the message to the output |
| BptcPower.VerdictIsColumnSyndrome | bptc19696.cpp:101-133 | For every input: rejected iff after the first row pass some column has syndrome 14 or 15, iff some column is then more than one flip from all column codewords |
| BptcPower.RowsEndAsCodewords | bptc19696.cpp:125-133 | On exit rows 0 to 8 are codewords, each changed in at most one cell by the last pass |
| BptcPower.OneBadColumn | bptc19696.cpp:113-133 | If after the first row pass all columns but one are within one flip of the codeword's, the message is recovered |
| BptcPower.RecoverableIsDecoded | bptc19696.cpp:101-133 | One lost data row, one bad column in the parity rows and a flip in each other data row are corrected; without a bad column also accepted |
| BptcPower.RowBurstIsDecoded | bptc19696.cpp:102-123 | One of the 13 rows corrupted arbitrarily, a flip in each other data row: right message, accepted |
| BptcPower.ColumnBurstIsDecoded | bptc19696.cpp:101-133 | One of the 15 columns corrupted arbitrarily: right message |
| BptcPower.ThreeDifferences | bptc19696.cpp:101-133 | Any three differing cells of the matrix are corrected |
| BptcPower.TwoDifferences | bptc19696.cpp:101-123 | Any two differing cells leave the verdict positive |
| BptcRadius.ThreeFlipsAreCorrected | bptc19696.cpp:79-146 | For every message and any at most three flipped bits among the 196 received the output is the message; with at most two the verdict is positive |
| BptcRadius.FourFlipsCanDeceive | bptc19696.cpp:79-146 | For every message four flipped bits exist that give a wrong output with a positive verdict |
| BptcRadius.ThreeFlipsCanBeRejected | bptc19696.cpp:70-71 | For every message three flipped bits exist that give a negative verdict |
| BptcRadius.RoundTrip | bptc19696.cpp:79-146 | Decoding an undisturbed transmission gives the message and a positive verdict |
| Words.PowerOfTwoTest | ringbuffer.cpp:8-10 | The bit trick accepts exactly the powers of two |
| Words.MaskIsRemainder | ringbuffer.cpp:16-16 | Masking with a power of two less one is the remainder |
| Words.MaskedCounter | ringbuffer.cpp:42-42 | The masked, wrapped counter is the true counter modulo the capacity |
| Words.CounterDifference | ringbuffer.cpp:64-64 | The wrapped difference of two wrapped counters is their true difference |
| RingBuffer.Ring.Make | ringbuffer.cpp:14-22 | Construction fails iff the capacity is not a power of two; otherwise the buffer is empty |
| RingBuffer.WriteAppends | ringbuffer.cpp:42-53 | The two-chunk copy plus the counter step append the bytes to the contents, across wraps of buffer and counter |
| RingBuffer.ReadTakes | ringbuffer.cpp:68-77 | The two-chunk copy out takes the front of the contents and leaves the rest |
| RingBuffer.Ring.Write | ringbuffer.cpp:26-56 | As many bytes as fit are appended; the overrun counter steps iff some did not fit |
| RingBuffer.Ring.Read | ringbuffer.cpp:60-80 | The longest available prefix up to the wanted length is removed and returned |
| RingBuffer.Ring.Available | ringbuffer.cpp:82-86 | The number of bytes stored |
| RingBuffer.Ring.Reset | ringbuffer.cpp:88-92 | The buffer is empty and the overrun count zero |
| RingProtocol.CellAtIsSlot | ringbuffer.cpp:42-50 | Byte i of a two-chunk copy lands in the slot of stream position counter + i |
| RingProtocol.RoomSeen | ringbuffer.cpp:27-30 | The free space computed from wrapped counters and a stale look is what that look leaves, never negative |
| RingProtocol.FillByteKeeps | ringbuffer.cpp:45-50 | Copying one byte in, at any moment, keeps every unread byte and the reader's copy intact |
| RingProtocol.StepKeepsInvariant | ringbuffer.cpp:26-86 | Every step of either side keeps the protocol invariant |
| RingProtocol.RunKeepsInvariant | ringbuffer.cpp:26-86 | The invariant holds in every state of every run |
| RingTheorems.StoredIsQueue | ringbuffer.cpp:64-68 | In every run the queue is what the sequential buffer's contents read off the cells and the wrapped counters |
| RingTheorems.ReturnedIsPrefix | ringbuffer.cpp:26-80 | In every run the returned bytes are a prefix of the accepted bytes, at most a capacity behind |
| RingTheorems.StepRefinesQueue | ringbuffer.cpp:53-77 | Only publishing changes the abstract queue: a write appends its bytes, a read removes exactly what it returns |
| RingTheorems.WriteTakes | ringbuffer.cpp:27-38 | A write takes exactly the prefix for which the read counter it saw leaves room, never more than fits, all that fits if its look is the newest, and counts as short iff it dropped bytes |
| RingTheorems.ReadTakesAll | ringbuffer.cpp:61-66 | A read takes all that is wanted or all that its look shows, whichever is less; with the newest look, up to the whole queue |
| RingTheorems.NeitherSideWaits | ringbuffer.cpp:26-80 | In every state of every run each side may take its next step, with any look no older than its last, and bytes may move in any order |
| RingTheorems.PollShows | ringbuffer.cpp:82-86 | A poll shows the bytes up to the write counter that it sees, and changes nothing else |
| RingTheorems.Conservation | ringbuffer.cpp:32-36 | Requested bytes are returned, queued, in flight or dropped; the overrun counter is the number of short writes |
| RingTheorems.CopiesNeverCollide | ringbuffer.cpp:45-75 | In every run the cells being filled and being drained are disjoint and inside the buffer |
| RingTheorems.PolledBytesAreRead | main.cpp:161-167 | Once a poll has shown enough bytes, the next read returns all that is wanted, whatever the writer does meanwhile |
| RingAlignment.RunIsAligned | ringbuffer.cpp:30-38 | If capacity and requests are multiples of a group, all counters and lengths are, overruns included |
| RingAlignment.BytesKeepTheirPhase | main.cpp:157-169 | Any property of phase and value that written bytes satisfy holds of the bytes read, so I and Q never swap |
| SyncWords.Triangle | burst_sync.cpp:19-22 | The bit distance satisfies the triangle inequality |
| SyncWords.SyncWordsAreApart | burst_sync.h:89-93 | Any two sync words differ in at least twelve bits |
| SyncWords.MatchIsExact | burst_sync.cpp:24-33 | A register is classified as a type iff it is within four bits of that type's word, whatever the order of comparisons |
| SyncWords.MatchInNumbers | burst_sync.h:90-94 | The same with the four words and the tolerance of four bits written out |
| SyncWords.MasksAreTheBits | burst_sync.h:89-89 | The 48 places that the distance looks at are the lowest 48 bits, one each |
| SyncWords.HammingCounts | burst_sync.cpp:19-22 | The distance is the number of those places in which two words differ |
| SyncWords.SevenErrorsNeverConfuse | burst_sync.cpp:24-33 | A sync word with up to seven flips is classified as its own type or as unknown |
| SyncWords.TwentyDibitsNeverMatch | burst_sync.cpp:24-33 | A register with nothing above bit 39 matches nothing |
| DibitStream.RegisterHoldsLast24 | burst_sync.cpp:79-80 | After any stream the register packs its last 24 dibits, zero-padded |
| DibitStream.PackIsReadBack | burst_sync.cpp:79-80 | Up to 24 dibits are read back from their register, two bits each, the last one lowest |
| DibitStream.PackIsInjective | burst_sync.cpp:79-80 | So the register determines them |
| BurstScan.StartsIsScan | burst_sync.cpp:82-121 | The recursive scan satisfies the declarative one: matches a span apart that cover every match |
| BurstScan.ScanIsUnique | burst_sync.cpp:82-121 | There is no other such scan |
| BurstScan.NoEarlyMatch | burst_sync.cpp:80-84 | No stream matches before its 21st dibit |
| BurstScan.QuietStreamHasNoBurst | burst_sync.cpp:83-103 | A burst is under way only where something has matched |
| BurstScan.BurstsSnoc | burst_sync.cpp:105-121 | A burst is complete with the 59th dibit after its match and at no other time, and earlier bursts never change |
| BurstTiming.StartsAreSixtyApart | burst_sync.cpp:82-121 | A burst starts at a match of 24 dibits, and the next at least 60 dibits later |
| BurstTiming.OnlySixtyAreSkipped | burst_sync.cpp:82-121 | A match that starts no burst comes less than 60 dibits after one that does |
| BurstTiming.SixtiethMayMatch | burst_sync.cpp:112-121 | A match with the 60th dibit after a start starts the next burst |
| BurstTiming.BurstIsOutIff | burst_sync.cpp:112-116 | Burst i is out iff 59 dibits have followed its sync word, at every moment of every stream |
| BurstTiming.BurstHolds | burst_sync.cpp:90-109 | A burst holds the 49 dibits before its sync word, the 49 after it, its word, type, and alternating timeslot |
| BurstTiming.BackToBackIsOutIff | burst_sync.h:15-16 | Of 132-dibit bursts without a pause, burst k is out iff 132(k + 1) dibits have come |
| BurstTiming.BackToBack | burst_sync.cpp:118-120 | If their sync words are recognised and nothing else passes for one, all are emitted, each with its own halves |
| History.RememberMore | burst_sync.cpp:75-77 | Overwriting the oldest place of a circular history with the next item keeps all the others |
| BurstSync.Sync.Remember | burst_sync.cpp:73-80 | History and register keep holding the end of the stream |
| BurstSync.Sync.ExtractFirstHalf | burst_sync.cpp:50-58 | The 49 dibits before the sync word, zero-padded before the start of the stream |
| BurstSync.Sync.Hunt | burst_sync.cpp:83-103 | Hunting starts a burst iff the scan starts one, with the scan's type, timeslot, sync bits and first half |
| BurstSync.Sync.Collect | burst_sync.cpp:105-121 | Collecting fills the second half, ignores the guard and emits exactly the burst that the scan completes |
| BurstSync.Sync.PushDibit | burst_sync.cpp:72-122 | The emitted bursts so far are exactly the bursts of the scan of the stream so far; counters agree |
| SlotManager.Manager.AdvanceState | slot_manager.cpp:37-67 | One slot takes the transition, the miss count is cleared, the other slot is untouched |
| SlotManager.Manager.OnBurst | slot_manager.cpp:71-88 | The event carries the state and count of the burst's own slot as functions of the history |
| SlotManager.StateIsLastTwoBursts | slot_manager.cpp:42-66 | VOICE iff the last known burst is voice, IDLE iff none or data directly after voice, else DATA |
| SlotManager.OneMoreBurst | slot_manager.cpp:42-66 | The transitions written out by type; an unknown type changes nothing |
| SlotManager.EventCounts | slot_manager.cpp:73-86 | Event i carries burst i and the number of bursts on its slot up to and including it |
| SlotManager.EventInStream | slot_manager.cpp:71-88 | Over any dibit stream event i has count i / 2 + 1 and a state decided by the types of bursts i and i - 2 |
| SlotManager.SlotsFillInTurn | slot_manager.cpp:72-76 | Alternating bursts fill the two slots in turn, each slot getting every second burst |
| SlotManager.StreamFillsSlots | burst_sync.cpp:86-121 | Over any stream timeslots alternate, slot counts sum to the burst count and differ by at most one, matches exceed bursts by one iff collecting |
| LcParser.ExtractU8 | lc_parser.cpp:5-11 | The big-endian value of eight bits |
| LcParser.ExtractU24 | lc_parser.cpp:13-19 | The big-endian value of 24 bits |
| LcParser.ValueOfByte | lc_parser.cpp:5-11 | The first bit of a byte counts 128 and the last one |
| LcParser.SignExtend24 | lc_parser.cpp:21-27 | Sign extension of 24 bits is two's complement |
| LcParser.ParseVoiceLc | lc_parser.cpp:31-63 | The result is that of the field specification, including both early returns |
| LcParser.VoiceLcIsRecovered | lc_parser.cpp:31-63 | From any 96 bits that carry an opcode and two identities the parser recovers exactly these |
| LcParser.OtherOpcodesAreRefused | lc_parser.cpp:42-44 | An opcode other than 0 and 3 gives an invalid result without identities |
| LcParser.AcceptedVoiceLcIsCarried | lc_parser.cpp:42-62 | An accepted payload carries exactly what the parser reports |
| LcParser.ParseGps | lc_parser.cpp:67-125 | The result is that of the specification, over the reals |
| LcParser.GpsValidity | lc_parser.cpp:96-124 | Valid iff the type is known, neither coordinate is 0x800000 and they are not both zero |
| LcParser.PositionIsRecovered | lc_parser.cpp:96-124 | From any payload that carries a known type and two signed coordinates the parser recovers these, scaled; valid iff they are not both zero |
| LcParser.GpsIsInjective | lc_parser.cpp:101-113 | On valid reports latitude and longitude determine the raw fields |
| Layer2.Handle | main.cpp:94-149 | The report of a burst: none if rejected or invalid, else the parsed call or position with its slot |
| Layer2.ReportInWords | main.cpp:108-137 | By type: voice bursts as calls, data bursts as positions, unknown ones not at all |
| Layer2.RejectedIsSilent | main.cpp:99-101 | A payload with a column syndrome of 14 or 15 after the first row pass is not reported |
| Layer2.HeardBurst | burst_sync.cpp:72-122 | A hunting synchroniser emits a burst with up to four sync errors, with its type and both halves, on the last guard dibit |
| Layer2.PayloadIsReported | main.cpp:94-149 | With up to two payload errors a burst is reported as its message would be, with three as that or not at all |
| Layer2.VoicePayloadIsReported | main.cpp:98-122 | With up to three payload errors a voice call is reported exactly or not at all, with up to two exactly |
| Layer2.PositionPayloadIsReported | main.cpp:124-137 | The same for a position |
| Layer2.EndToEnd | main.cpp:94-149 | With no burst under way before the end of the sync word, at most four sync errors and two payload errors, the last guard dibit brings exactly the report of the bits encoded, whatever they are |
| Layer2.VoiceEndToEnd | main.cpp:98-122 | A voice call so sent is reported with its slot, identities and kind |
| Layer2.PositionEndToEnd | main.cpp:124-137 | A position so sent is reported with its slot and scaled coordinates |
| TimingRecovery.TimeIsSumOfPeriods | timing_recovery.cpp:58-67 | Symbol times are the sums of the periods used, and each symbol is the interpolant of the input there |
| TimingRecovery.LoopIsStable | timing_recovery.cpp:52-88 | The loop after a symbol depends only on the samples up to it |
| TimingRecovery.InterpolantIsLinear | timing_recovery.cpp:32-48 | Between two samples the value is their weighted mean, with zeros before the first |
| TimingRecovery.SymbolsOnRamp | timing_recovery.cpp:66-67 | On a straight line every symbol is the line's value at the symbol's time |
| TimingRecovery.LawOfLoop | timing_recovery.cpp:66-80 | From symbol to symbol: mid-sample half a period back, error, integrator, period and clamp, written out |
| TimingRecovery.FlatInputIsSilent | timing_recovery.h:20-30 | On a constant input the error is zero from the second symbol on |
| TimingRecovery.PeriodIsClamped | timing_recovery.h:41-41 | With the configuration in use strong errors of either sign give the periods 6.0 and 4.5 |
| TimingRecovery.CountIsExact | timing_recovery.cpp:60-62 | A symbol has been emitted iff its time has passed |
| TimingRecovery.DefaultIsInBand | timing_recovery.h:48-54 | The configuration in use meets the hypotheses on periods of the lemmas below |
| TimingRecovery.PeriodIsDocumentedIff | timing_recovery.h:37-41 | The period is the documented one, clamped, iff the integral step is zero or the clamp hides it |
| TimingRecovery.PeriodIsNotDocumented | timing_recovery.cpp:77-80 | On six samples of one the first period is 5.2303 where the documentation gives 5.2283 |
| TimingRecovery.PeriodIsBounded | timing_recovery.cpp:79-80 | The period never leaves the configured range |
| TimingRecovery.SymbolRate | timing_recovery.cpp:58-84 | N samples give more than (N-6)/6 and at most N/4.5 symbols |
| TimingRecovery.StrobeSpacing | timing_recovery.cpp:60-62 | A symbol comes with the first sample at or after its time, and symbols are four to six samples apart |
| TimingLoop.InterpolateIsInterpolant | timing_recovery.cpp:32-48 | Looking back in the circular history is interpolating the input at the time meant |
| TimingLoop.PhaseIsInRange | timing_recovery.cpp:58-80 | The phase is never negative and stays below the period, and the period within 4.5 to 6 |
| TimingLoop.StrobeIsSafe | timing_recovery.cpp:61-71 | At a strobe the phase is below one and the history is asked for less than it holds |
| TimingLoop.StrobeInBandIsSafe | timing_recovery.cpp:66-71 | In the declared band offsets are at most four and only pushed samples are read |
| TimingLoop.StruckIsFilter | timing_recovery.cpp:61-86 | A strobe that looks back less than seven samples is a step of the reference |
| TimingLoop.StepFollows | timing_recovery.cpp:54-87 | With periods of one to twelve samples a step reads inside the history, keeps the conservation law and emits the reference's next symbol iff its time has passed |
| TimingLoop.RunFollows | timing_recovery.cpp:52-89 | No input leads such a machine outside of its history, and its symbols are the reference's |
| TimingLoop.Recovery.ProcessSample | timing_recovery.cpp:54-87 | For any configuration, as long as the code reads inside its history, one sample is a step of the machine; if the loop followed the reference it still does |
| TimingLoop.Recovery.Process | timing_recovery.cpp:52-89 | The same for a block; the symbols so far are the reference's, in whatever blocks the samples came |
| FskSlicer.Slicer.DecideSymbol | fsk_slicer.cpp:20-47 | The dibits so far are those of the symbol stream so far |
| FskSlicer.DefaultIsSane | fsk_slicer.h:52-56 | The configuration in use meets the hypotheses of the lemmas below |
| FskSlicer.NominalLevels | fsk_slicer.h:15-19 | The four nominal deviations decide as 01, 00, 10 and 11 |
| FskSlicer.LevelIsStrictIff | fsk_slicer.h:41-44 | The decision is the documented, strict one iff the symbol lies on no threshold |
| FskSlicer.DibitsAreStrictIff | fsk_slicer.h:41-44 | A stream's dibits are the documented ones iff none of its symbols lies on a threshold of its time |
| FskSlicer.ZeroIsNotStrict | fsk_slicer.cpp:41-44 | A first symbol of zero gives 00 where the documentation gives 10 |
| FskSlicer.PeaksKeepSigns | fsk_slicer.cpp:26-32 | The outer levels stay on their own sides of zero |
| FskSlicer.PeaksMirror | fsk_slicer.cpp:26-32 | Negating all symbols swaps and negates the outer levels |
| FskSlicer.DibitsMirrorIff | fsk_slicer.cpp:20-46 | It turns every dibit into its opposite iff no symbol lies on a threshold |
| FskSlicer.PositiveLevelFollows | fsk_slicer.cpp:26-28 | While n equal positive symbols v are outer ones, the level comes to v + (1 - a)^n (level - v) and the negative one rests |
| FskSlicer.NegativeLevelFollows | fsk_slicer.cpp:29-31 | The same for the negative level |
| FskSlicer.OuterForGood | fsk_slicer.cpp:23-32 | With an outer fraction of at most one a repeated symbol that is outer once stays so, on either side |
| FskSlicer.InnerLeavesLevels | fsk_slicer.cpp:26-32 | A symbol in the inner region changes neither level |
| FskSlicer.FirstSymbolOfDefault | fsk_slicer.h:53-55 | The levels after any first symbol with the configuration in use |
| FskSlicer.UpdateIsInvisibleIff | fsk_slicer.cpp:23-44 | At all signed levels a symbol's update leaves its own decision alone iff the outer fraction is at least one half |
| FskSlicer.DibitIgnoresOwnUpdate | fsk_slicer.cpp:20-46 | Each dibit is the decision against the levels before its own update |
| FskSlicer.FirstDibitHasOwnUpdate | fsk_slicer.cpp:20-46 | Below one half some first symbol of a stream changes its own decision |
| FskSlicer.IgnoresOwnUpdatesIff | fsk_slicer.cpp:20-46 | Over all streams every dibit is the decision against the levels before its own update iff the outer fraction is at least one half |
| FskSlicer.DibitsAreScaleFree | fsk_slicer.cpp:20-47 | Scaling all symbols and the initial level leaves the dibits unchanged |
| ChannelFilter.OutputsSnoc | channel_filter.cpp:102-113 | A sample adds an output iff it completes a decimation period, and earlier outputs never change |
| ChannelFilter.ImpulseResponse | channel_filter.cpp:102-113 | An impulse at sample k comes out as output m scaled by tap Dm + D - 1 - k, and as zero where there is no such tap |
| ChannelFilter.FilterIsAdditive | channel_filter.cpp:106-110 | The output for a sum of streams is the sum of the outputs |
| ChannelFilter.ConstantResponse | channel_filter.cpp:62-65 | A constant stream that fills the delay line comes out scaled by the sum of the taps |
| ChannelFilter.ConversionInverts | channel_filter.cpp:77-81 | I is recovered from the real part and Q from the imaginary part, both within one |
| ChannelFilter.ProductLaws | channel_filter.cpp:84-87 | The product of complex numbers: unit, square of i, commutative, distributive |
| ChannelFilter.ProductAssociates | channel_filter.cpp:84-87 | And associative |
| ChannelFilter.OscillatorStarts | channel_filter.cpp:29-30 | The oscillator starts at one and steps by its step |
| ChannelFilter.OscillatorTurns | channel_filter.cpp:86-87 | It turns by equal amounts in equal times |
| ChannelFilter.Filter.ShiftIn | channel_filter.cpp:95-100 | In place: the delay line moves right by one with the newest sample in front |
| ChannelFilter.Filter.DotProduct | channel_filter.cpp:106-110 | The dot product is the convolution of the taps with the mixed input at the newest sample |
| ChannelFilter.OscillatorIsNormal | channel_filter.cpp:29-30 | The oscillator stays on the unit circle, so dividing it by its magnitude leaves it as it is |
| ChannelFilter.Filter.Mix | channel_filter.cpp:79-93 | The sample is the converted pair times the power of the step, through every renormalisation |
| ChannelFilter.Filter.Process | channel_filter.cpp:70-115 | The outputs so far are the decimated convolution of the mixed input so far |
| FmDiscriminator.DifferenceIsConjugateProduct | fm_discriminator.cpp:9-10 | Each output is the imaginary part of the sample times its predecessor's conjugate |
| FmDiscriminator.OutputsCompareNeighbours | fm_discriminator.cpp:3-15 | Output n compares sample n with sample n - 1, and output 0 with one |
| FmDiscriminator.TurnIsRecovered | fm_discriminator.cpp:9-10 | A sample turned by w against its predecessor comes out as the imaginary part of w times the squared magnitude |
| FmDiscriminator.Discriminator.Process | fm_discriminator.cpp:3-15 | The outputs so far are the discriminated samples so far, carried across calls |
| DemodChain.Chain.HandleSymbol | demod_chain.cpp:11-22 | A symbol passes through slicer, synchroniser and slot manager and gives the event of the burst it completes |
| DemodChain.Chain.Process | demod_chain.cpp:25-36 | The events so far are the events of the raw input so far |
| DemodChain.Chain.ProcessBlocks | main.cpp:161-170 | Any partition into blocks gives the events of the concatenation |
| Receiver.EventsOfInput | demod_chain.cpp:25-36 | Event i of a raw input carries burst i of the dibits that filter, discriminator, timing and slicer make of it, with its count and state |
| Receiver.EveryMessageIsReported | main.cpp:94-149 | If frames without a pause are heard, each with at most four sync and two payload errors, every message is reported in order as its bits say |

## Left out

- Capture, UDP output, JSON printing, signal handling, timestamps and the status loop: device and I/O plumbing. Of `main.cpp` the model takes the poll-then-read pattern, the block feed and the layer-2 handler; channel labels, the constant source 0 of a position report and the console output are not modelled.
- Filter tap design and the oscillator's step (`channel_filter.cpp:22-66`): sine, cosine and square root. Taps, step and the magnitude function are parameters of the filter; of the step it is known that it lies on the unit circle, of the magnitude that its square is the sum of the squares.
- IEEE rounding: filter, discriminator, timing, slicer and coordinates are over the reals.
- Memory ordering weaker than acquire/release: a side may see any earlier value of the other's counter that is no older than its last look, and data copies are interleaved byte by byte. `reset()` is modelled only as a sequential operation, as `ringbuffer.h:73-77` requires, and `available()` only from the consumer or sequentially.
- Null callbacks: the constructors' exceptions for them. Callbacks are modelled as results; the order in which stages are called within one sample is the source's, but the timing loop hands its symbols on after a block and not one by one, which no stage can observe.
- ChannelFilter.Filter.constructor: takes an odd number of taps, for which the source's constructor does not throw, and a positive decimation.
- DemodChain.Chain.constructor: requires a timing configuration with periods between 1 and 12 samples, for which the eight-slot history is proved to suffice on all inputs; the source does not check its configuration.
- The sample buffers of the demodulation chain, which every call clears, are locals of the model's method; the burst being assembled holds its dibits as a sequence that is updated.
- Conformance with ETSI TS 102 361-1: the facts are about the code's own tables and layout. True timeslot recovery is not attempted; the slot is the code's alternating estimate.
- Overflow of the `int` timeslot toggle and of the 64-bit diagnostic counters other than the ring buffer's: they are unbounded here.
