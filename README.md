# Legacy event-camera decoding: td/aps merge and AEDAT reader

This project models, in Dafny, the two decoding cores of a converter from legacy
event-camera recordings to an event stream:

- **The dual-channel td/aps merge** (`source/datToEs.cpp`, written inline in `main`).
  - Two raw dump files are read: a "td" file of pixel-change events and an "aps" file of
    threshold-crossing events. Each has a `%` comment header followed by 8-byte records.
  - Each channel is decoded, and records older than the last written event are dropped.
  - An aps record must also be strictly newer than the last aps event at the same pixel. A
    304 x 240 table keeps that timestamp per pixel.
  - The two channels are merged through a four-state machine (`tdLate`, `apsLate`,
    `tdEndOfFile`, `apsEndOfFile`) into one chronological stream.
  - A channel is re-read only right after its own buffered event was written. So the "last
    written event" a record is compared with is always the last written event of the same
    channel. Each channel's part of the output therefore depends on that channel alone, and
    the model proves it equal to a single-channel filter of its records.
- **The AEDAT reader** (`source/aedat.hpp`):
  - `read_header` scans the `#` header lines for a version and a sensor geometry.
  - Two decoders cover the 6-byte DVS128 (AEDAT 1.0) and 8-byte DAVIS (AEDAT 2.0) layouts.
  - Two observable loops hand on the decoded events that are chronological and lie on the
    sensor.

Layout:

- `support.dfy` (`Support`): `Option`, `Result`, and the subsequence relation with its lemmas.
- `bytes.dfy` (`Bytes`): bytes, fixed-size records, the cutting of a byte string into
  complete records, and 32-bit little-endian values.
- `dat_records.dfy` (`DatRecords`): the 8-byte td/aps record layout and its decoder.
- `merge_engine.dfy` (`MergeEngine`): the reference model of the merge loop.
  - It is a state machine over an `Engine` value: `Step` is one pass of the loop and `Run`
    runs to the end.
  - The priming is in two forms: as the code writes it, and corrected.
  - The guarantees of the merge are proved here.
- `dat_to_es.dfy` (`DatToEs`): the body of `main`.
  - Argument checks, the comment-header loop, and the error conditions.
  - The imperative merge: buffered events and cursors in local variables, the per-pixel
    table as an `array<nat>` updated in place, and the inner re-read loops as `while` loops.
  - `Merge` is proved to compute what `MergeEngine.Run` computes and to keep its guarantees.
- `aedat.dfy` (`Aedat`): `read_header` as loops, each proved against a specification
  function; the decoders with their round trips; the observables as loops proved against a
  filter function.

Inputs and outputs:

- The contents of an input file are a `seq<Byte>`.
- A channel is the sequence of its complete records. Reading past the last one is what the
  code observes as `eof()`. A channel named `"null"` is disabled and holds no records.
- The event handler and the event-stream writer are the returned sequence of events.

## Model

| member | source | states |
|---|---|---|
| Bytes.Chunks | source/aedat.hpp:194-199 | a byte string cuts into as many complete n-byte records as fit; record k is bytes n*k to n*k+n; a trailing partial record is dropped |
| DatRecords.Decode | source/datToEs.cpp:139-148 | a decoded record has a 32-bit timestamp, x below 512 and a uint16 y; the threshold flag is false for td and true for aps |
| DatRecords.DecodeEncode | source/datToEs.cpp:139-148 | decoding the record of any event with x < 512, y < 240 and a 32-bit timestamp gives that event back, on either channel |
| DatRecords.RowWraps | source/datToEs.cpp:141 | y lies on the sensor exactly when the raw 8-bit row is below 240; a larger raw row wraps to a uint16 value of at least 65520 |
| MergeEngine.FirstTd | source/datToEs.cpp:149-156 | the td re-read loop stops at the first record not older than the last written timestamp; every skipped record is older; it reaches end of file only when no later record qualifies |
| MergeEngine.FirstAps | source/datToEs.cpp:173-181 | the aps re-read loop stops at the first record not older than the last written timestamp and strictly newer than its pixel's table entry; every skipped record fails that test |
| MergeEngine.AdmitPixels | source/datToEs.cpp:243-244 | admitting an aps record strictly newer than its pixel's table entry sets only that entry to its timestamp, keeps every written aps event at or below its entry, and every aps event already written at that pixel is older than the admitted one |
| MergeEngine.AppendApsPixels | source/datToEs.cpp:226-227 | writing an aps event that the table records, and that is newer than every written aps event at its pixel, keeps the written aps events strictly increasing per pixel |
| MergeEngine.AppendTdPixels | source/datToEs.cpp:194-195 | writing a td event changes neither the per-pixel order of the aps events nor their relation to the table |
| MergeEngine.Step | source/datToEs.cpp:192-319 | one pass of the loop keeps the cursors inside the channels and strictly decreases a measure of the records left, so the loop terminates |
| MergeEngine.Run | source/datToEs.cpp:192-319 | the loop always ends with `done` set |
| MergeEngine.StepKeepsInv | source/datToEs.cpp:192-319 | one pass keeps the loop invariant. The output is chronological and not newer than the last written timestamp. Each pending buffer holds the record just before its cursor. `tdLate` means td.t <= aps.t and `apsLate` means aps.t < td.t. The table holds each pending aps timestamp, and aps events stay ordered per pixel. For each channel, its written and pending events, followed by what its admission rule keeps of its unread records, are exactly that rule applied to the whole channel |
| MergeEngine.RunKeepsInv | source/datToEs.cpp:192-319 | the invariant holds when the loop ends |
| MergeEngine.RunExtends | source/datToEs.cpp:192-319 | the loop only appends to the output |
| MergeEngine.PrimeEstablishesInv | source/datToEs.cpp:128-190 | the corrected priming sets up the loop invariant, with an empty output, a zero last timestamp and the table holding only the first admitted aps record |
| MergeEngine.DoneGuarantees | source/datToEs.cpp:259-317 | when the loop ends with its invariant, the output has every guarantee of the merge. In particular, each channel's events are exactly the records its admission rule keeps, since nothing is pending any more |
| MergeEngine.MergedCorrect | source/datToEs.cpp:84-319 | holds with both channels enabled or either one disabled. The written timestamps never decrease. Two aps events at the same pixel have strictly increasing timestamps. No aps event has timestamp 0. The td events are exactly the td records not older than the last td record written. The aps events are exactly the aps records not older than the last aps record written and strictly newer than the last one admitted at their pixel. So every admitted record is written, once, in its channel's order, and no dropped record is written |
| MergeEngine.MergedKeepsEverything | source/datToEs.cpp:128-319 | when the td records never go back in time, and the aps records never go back in time, have nonzero timestamps and strictly increase at each pixel, every record of both channels is written |
| MergeEngine.DrainTd | source/datToEs.cpp:289-317 | in `apsEndOfFile` the loop writes the pending td event and then every remaining td record not older than the last one written |
| MergeEngine.SkipToNext | source/datToEs.cpp:295-314 | skipping the events older than the last written timestamp up to the first one that is not is the first step of the single-channel filter |
| MergeEngine.FirstTdIsMonotone | source/datToEs.cpp:200-222 | the td re-read loop finds exactly the next record the single-channel td rule keeps |
| MergeEngine.MonotoneSubseq | source/datToEs.cpp:200-222 | the td rule keeps a subsequence of the records |
| MergeEngine.SkipToAdmitted | source/datToEs.cpp:232-255 | skipping the aps events the table refuses, up to the first one it admits, is the first step of the single-channel aps rule |
| MergeEngine.FirstApsIsFilter | source/datToEs.cpp:232-255 | the aps re-read loop finds exactly the next record the single-channel aps rule admits, and the table then records it |
| MergeEngine.ApsFilterSubseq | source/datToEs.cpp:232-255 | the aps rule keeps a subsequence of the records |
| MergeEngine.ApsFilterKeepsGood | source/datToEs.cpp:243-244 | a chronological run of aps events that strictly increase per pixel, each newer than its table entry, is admitted whole |
| MergeEngine.MergedTdOnly | source/datToEs.cpp:135-157 | with the aps channel disabled, the output is exactly the td records not older than the last one kept |
| MergeEngine.MergedTdOnlyChronological | source/datToEs.cpp:135-157 | with the aps channel disabled, a chronological td channel is written unchanged |
| MergeEngine.NullApsInjectsDefaultEvent | source/datToEs.cpp:159-190 | as written, aps `"null"` and one td record with a nonzero timestamp write a default-constructed event before the td event; the corrected merge writes the td event alone |
| MergeEngine.NullApsInsertsOneDefaultEvent | source/datToEs.cpp:184-190 | as written, aps `"null"` and a td file holding records write the corrected output with exactly one default-constructed event inserted, at position `LeadingZeros` of it: before the first event with a nonzero timestamp, or at the end when there is none |
| MergeEngine.LeadingZeros | source/datToEs.cpp:211-214 | the insertion point: every event before it has timestamp 0, and the event at it, if any, has a nonzero timestamp (the first td event that is newer than the never-read aps buffer) |
| MergeEngine.NullApsTdLate | source/datToEs.cpp:194-222 | as written with aps `"null"`, from a `tdLate` state whose pending td event has timestamp 0, the rest of the output is that event followed by the records the td rule keeps, with one default event inserted after their leading zero-timestamp ones |
| MergeEngine.NullApsZeroTimestampDefaultEvent | source/datToEs.cpp:259-260 | as written, aps `"null"` and one td record with timestamp 0 write the td event and then a default-constructed event; the corrected merge writes the td event alone |
| MergeEngine.EmptyTdInjectsDefaultEvent | source/datToEs.cpp:177-181 | as written, an empty td file and an aps file whose only record has timestamp 0 write a default-constructed td event; the corrected merge writes nothing |
| MergeEngine.NullTdStartsWithDefaultEvent | source/datToEs.cpp:135-190 | as written, a `"null"` td input makes every conversion start with a default-constructed event, whether or not the aps channel holds an admitted record |
| MergeEngine.NullTdInjectsDefaultEvent | source/datToEs.cpp:184-188 | as written, td `"null"` and one aps record with a nonzero timestamp write a default-constructed event before the aps event; the corrected merge writes the aps event alone |
| MergeEngine.PrimeAgrees | source/datToEs.cpp:135-190 | with both channels enabled, the priming as written equals the corrected priming exactly when some channel holds an admitted record |
| DatRecords.TdWitness | source/datToEs.cpp:139-142 | the record `05 00 00 00 00 00 00 00` decodes to timestamp 5, so it meets the precondition of `MergeEngine.NullApsInjectsDefaultEvent` |
| DatRecords.ApsWitness | source/datToEs.cpp:139-148 | the all-zero record (the encoding of pixel (0, 239) at timestamp 0) decodes to an aps event at timestamp 0 that addresses the threshold table, so it meets the precondition of `MergeEngine.EmptyTdInjectsDefaultEvent` |
| DatToEs.CheckArguments | source/datToEs.cpp:22-33 | the arguments pass exactly when td, aps and output are pairwise different; the both-`"null"` error is never reached, because equal inputs are rejected first |
| DatToEs.CommentEndMeaning | source/datToEs.cpp:91-99 | the comment loop stops right after the longest block of `%` lines ending in a line feed, at a byte that is not `%`; when it fails, a `%` line after a block of comment lines runs to the end of the file without a line feed |
| DatToEs.SkipComments | source/datToEs.cpp:91-99 | the byte-by-byte comment loop computes that end, and what it skips is a block of comment lines |
| DatToEs.ConvertCorrect | source/datToEs.cpp:22-126 | a successful conversion had pairwise different arguments and parsable headers on the enabled channels. Its output has the merge guarantees over the channels' records: each channel's events are exactly the records its admission rule keeps. When the td channel is enabled and holds a record, its first record is written |
| DatToEs.FirstTdWritten | source/datToEs.cpp:138-151 | the first td record is always among the written events |
| DatToEs.PendingTdWritten | source/datToEs.cpp:192-319 | a pending td event is written later, after everything already written |
| DatToEs.PendingApsWritten | source/datToEs.cpp:192-319 | a pending aps event is written later, after everything already written |
| DatToEs.ReadTd | source/datToEs.cpp:200-222 | the td re-read loop returns the index the td search finds |
| DatToEs.ReadAps | source/datToEs.cpp:232-255 | the aps re-read loop returns the index the aps search finds; on admission exactly that pixel's table entry becomes the record's timestamp, and otherwise the table is unchanged |
| DatToEs.TdPass | source/datToEs.cpp:194-225 | the `tdLate` and `apsEndOfFile` cases update state, cursor, buffer, last timestamp, output and `done` exactly as one step of the state machine |
| DatToEs.ApsPass | source/datToEs.cpp:226-288 | the `apsLate` and `tdEndOfFile` cases do the same for the aps channel, updating the table in place |
| DatToEs.PrimeChannels | source/datToEs.cpp:128-190 | the priming reads, followed by the corrected state choice (see Findings), produce the state the corrected priming specifies. The table then holds only the first admitted aps record |
| DatToEs.Merge | source/datToEs.cpp:128-319 | the imperative merge writes exactly what the state machine writes from the corrected priming, and so has all the merge guarantees |
| DatToEs.DatToEs | source/datToEs.cpp:22-126 | `main` on three names and two file contents yields the result of `DatToEs.Convert`: the first argument or header error, in the order `main` checks them, or else the events the merge with the corrected priming writes |
| Aedat.HeaderLines | source/aedat.hpp:75-92 | the collected header lines hold no line feed; there are none exactly when the stream does not start with `#`; the stream is left at a byte that is not `#`, or at its end |
| Aedat.CollectHeaderLines | source/aedat.hpp:75-92 | the peek/ignore/get loops collect exactly those lines and stop at that position |
| Aedat.CheckClean | source/aedat.hpp:94-99 | the cleanliness test passes exactly when every character of every line is printable or white space |
| Aedat.SplitWords | source/aedat.hpp:106-118 | the word-splitting loop computes the line's words |
| Aedat.TokenizeNoSpace | source/aedat.hpp:106-118 | no word contains white space |
| Aedat.TokenizeNonEmpty | source/aedat.hpp:106-118 | only the last word can be empty, and the first never is |
| Aedat.TokenizeConcat | source/aedat.hpp:106-118 | the words together hold exactly the line's non-space bytes, in order |
| Aedat.TokenizeCount | source/aedat.hpp:106-119 | a line has no word exactly when it is all white space; the last word is empty exactly when the line ends in white space; a line is examined (two or more words) exactly when some white space follows a non-space character |
| Aedat.Digit | source/aedat.hpp:122-123 | the uint8 cast of a character minus `'0'` is the digit value for characters from `'0'` up |
| Aedat.ExamineCases | source/aedat.hpp:119-130 | an examined version line sets both versions from offsets 8 and 10 of its first word; a `HardwareInterface:` line sets 240 x 180; an `AEChip:` line sets only the height to 180; other lines change nothing |
| Aedat.ScanGeometry | source/aedat.hpp:104-135 | the scanned width is 240 exactly when some line is a `HardwareInterface:` line, else 0; the height is 180 exactly when some line is that or an `AEChip:` line, else 0 |
| Aedat.ScanVersion | source/aedat.hpp:121-123 | the scanned version comes from the last version line |
| Aedat.ScanNoVersion | source/aedat.hpp:104 | without a version line the scanned version stays 0.0 |
| Aedat.HeaderOfFacts | source/aedat.hpp:94-139 | the header read is always version 2 or later on a 240 x 180 sensor. The model's position is 0 exactly when there is no header line or a line is not clean; otherwise it is after the header lines, also when the fallback at the end is taken. The code's stream agrees except when the last header line has no line feed (see Findings) |
| Aedat.ReadHeader | source/aedat.hpp:74-140 | the loops of `read_header` return the specified header and stream position |
| Aedat.HeaderStreamAgrees | source/aedat.hpp:76-101 | the stream `read_header` leaves is good at the model's position, or at the end with `eofbit` set while the model starts at the end too. The exception is a fallback whose last header line has no line feed: there the model rewinds, and the code's stream stays failed at the end without `eofbit` |
| Aedat.StuckHeaderNeverEnds | source/aedat.hpp:83-100 | for the bytes `23 01`, `read_header` falls back but leaves the stream failed at its end without `eofbit`. Every read leaves it so, and the model rewinds to 0 instead |
| Aedat.ReadEndsLoop | source/aedat.hpp:213-218 | on a good stream, a read sets `eofbit` exactly when fewer bytes are left than asked for; otherwise it delivers the next record and stays good. This is the loop condition of the observables. A read on a stream already at its end ends the loop |
| Aedat.BytesToDvsEvent | source/aedat.hpp:145-153 | a DVS128 record decodes to a 32-bit timestamp, x below 128 and a uint16 y |
| Aedat.DvsRowInRange | source/aedat.hpp:150 | y is below the height exactly when the 6-bit raw row is; then y is the raw row counted down from the top |
| Aedat.DvsDecodeEncode | source/aedat.hpp:145-153 | decoding the record of any event on the sensor gives it back (little-endian timestamp, x in bits 1-7, polarity in bit 0) |
| Aedat.BytesToDavisEvent | source/aedat.hpp:157-187 | a DAVIS record decodes to a 32-bit timestamp, x below 1024 and y below 512; unless the stream is version 2 and bit 7 of byte 0 is clear, it is the sentinel (0, 0, 0, true) |
| Aedat.DavisDecodeEncode | source/aedat.hpp:158-169 | in a version-2 stream, decoding the record of any event with x < 1024 and y < 512 gives it back (big-endian timestamp) |
| Aedat.ObserveGuarantees | source/aedat.hpp:201-204 | the events handed on are chronological, none older than the starting timestamp, all on the sensor, none at t = 0 for DAVIS, and a subsequence of the decoded events |
| Aedat.ObserveKeepsGood | source/aedat.hpp:221-226 | a chronological sequence of on-sensor events (nonzero for DAVIS) is handed on unchanged |
| Aedat.DvsEventsCount | source/aedat.hpp:194-199 | a byte string yields one decoded event per complete 6-byte record |
| Aedat.DvsEventsOfRecords | source/aedat.hpp:194-200 | those events are the decoded complete records, in order |
| Aedat.DavisEventsCount | source/aedat.hpp:213-218 | a byte string yields one decoded event per complete 8-byte record |
| Aedat.DavisEventsOfRecords | source/aedat.hpp:213-220 | those events are the decoded complete records, in order |
| Aedat.DvsObservable | source/aedat.hpp:192-206 | the loop over 6-byte reads hands on exactly the filtered decoded events of the complete records after the header, with the observable guarantees |
| Aedat.DavisObservable | source/aedat.hpp:211-229 | the loop over 8-byte reads does the same for DAVIS records, also dropping zero timestamps |
| Aedat.DavisOtherVersionEmpty | source/aedat.hpp:180-186 | a run of sentinel events hands nothing on |
| Aedat.DavisNeedsVersion2 | source/aedat.hpp:158 | a stream whose header is not version 2 yields no DAVIS event at all |
| Aedat.DavisDropsZeroTimestamp | source/aedat.hpp:221 | a record decoding to timestamp 0 is dropped, even a genuine DVS event |
| Aedat.HeaderThenDavis | source/aedat.hpp:136-139 | reading the header and then DAVIS events from where it leaves the stream yields chronological events with nonzero timestamps and x < 240, y < 180 |

## Left out

- `source/aedat_to_es.cpp` is not part of this model. It is command-line glue over external
  libraries. Its dispatch on `major_version == 1` is unreachable, because `Aedat.HeaderOfFacts`
  shows the header always reports version 2 or later.
- Argument parsing, help text, console messages and progress printing (`source/datToEs.cpp:60-82`)
  are output only. The event-stream writer and its binary encoding are external code.
- Opening files is left out (`source/datToEs.cpp:36-55`), and so is the `UnreadableFile` error.
  The test at line 52 checks the td stream where the aps stream was meant; it depends on
  iostream state that the byte-sequence model does not have.
- The `frame`, `imu_event` and `external_input` records of `source/aedat.hpp:19-71` are
  unused data holders and are not modelled.
- Text-mode streams and `isprint`/`isspace` on negative `char` values are not modelled. Bytes
  from 0x80 up count as neither printable nor white space, as in the "C" locale.
- Aedat.Digit: reading `words[0][8]` or `words[0][10]` past the end of a word is undefined
  behaviour. The model reads `'\0'` there, which is exact at the terminator and a choice
  beyond it. The `try`/`catch` around it catches nothing and is not modelled.
- DatToEs.Merge: requires every aps record to address a table entry (`x + 304*y < 304*240`).
  This is stronger than the code needs. The code tests `t >= previousTimestamp` first, and
  `&&` stops there (`source/datToEs.cpp:173`, `243`, `276`). So only a record that passes
  that test indexes the table; an out-of-range record that fails it is skipped without harm.
  The model asks it of every record, because whether a record passes depends on the run.
- DatToEs.DatToEs: carries the same precondition as `DatToEs.Merge`, for the same reason.
- DatToEs.Convert: carries the same precondition as `DatToEs.Merge`, for the same reason.
- DatToEs.ConvertCorrect: carries the same precondition as `DatToEs.Merge`, for the same reason.
- MergeEngine.MergedCorrect: carries the same precondition on enabled aps channels, for the
  same reason.
- DatToEs.DatToEs: the error for a malformed aps header is "The td file is empty", the same
  as for the td file (`source/datToEs.cpp:114`). The model keeps that (`TdFileEmpty`).
- DatToEs.Merge: uses the corrected priming, not the priming as written (see Findings). The
  as-written priming is `MergeEngine.PrimeAsWritten`, used by the finding lemmas.
- DatToEs.PrimeChannels: makes the corrected state choice. As written, a `"null"` input on
  either channel makes the state choice use that channel's buffer, which was never filled
  (`source/datToEs.cpp:184-190`).
- DatToEs.DatToEs: merges with the corrected priming. As written, `main` also writes a
  default `sepia::Event{}` in three cases:
  - a `"null"` aps input, always: before the first td event with a nonzero timestamp, or
    after the last td event if there is none (`source/datToEs.cpp:184-190`, `259-260`;
    `MergeEngine.NullApsInsertsOneDefaultEvent`);
  - a `"null"` td input, always, before the aps events (`source/datToEs.cpp:135-136`,
    `179`, `184-188`);
  - an empty td file beside an aps file with no admitted record (`source/datToEs.cpp:177-181`).
  With both channels enabled, the last case is the only difference (`MergeEngine.PrimeAgrees`).
  See Findings.
- DatToEs.Convert: specifies the corrected merge, for the reason given for `DatToEs.DatToEs`.
- Aedat.ReadHeader: returns position 0 on the fallback path even when the last header line
  has no line feed. The code's stream then stays failed at its end, and the observables never
  stop reading (see Findings). `Aedat.HeaderStream` models the stream as the code leaves it.
- Aedat.HeaderOfFacts: states the rewind of the model. The code rewinds only when its stream
  has not failed (`Aedat.HeaderStreamAgrees`).
- Aedat.HeaderThenDavis: reads from the model's position, so in the stuck case it describes
  the intended behaviour. There the code never returns, and on each pass decodes a buffer
  the failed read did not fill (`source/aedat.hpp:214-220`), which is undefined behaviour.
- Streams are a byte sequence plus a position. The observables take the position `read_header`
  returns instead of sharing a stream object. Stream flags are modelled only for the stream
  `read_header` leaves (`Aedat.HeaderStream`, `Aedat.ReadBytes`).
- Timestamps are unbounded naturals. Every decoded timestamp is below 2^32, so the 64-bit
  fields and comparisons of the code never overflow.

Details of the code that the model keeps:

- Priming decides whether a channel is exhausted by `eof()`, which a stream that was never
  opened does not report (see Findings).
- Two `"null"` inputs are rejected by the equal-inputs check at `source/datToEs.cpp:22`,
  which comes first. The dedicated check at line 31 is unreachable (`DatToEs.CheckArguments`).
- `read_header` examines only lines that split into at least two words
  (`source/aedat.hpp:119`). A version line with nothing after its token, not even a trailing
  `\r` or space, is ignored.
- The version digits are read by unchecked indexing (`source/aedat.hpp:122-123`). The
  `try`/`catch` around it catches nothing.

## Findings

| source | as written | input that shows it | evidently intended | confidence | as-written member | corrected member |
|---|---|---|---|---|---|---|
| source/datToEs.cpp:184-190 | the priming compares the two buffered timestamps whenever neither stream reports `eof()`, and a stream that was never opened never does, so a disabled aps channel's default event takes part. Every conversion with aps `null` thus writes exactly one such event: before the first td event with a nonzero timestamp, or after the last td event (from `tdEndOfFile`, lines 259-260) if there is none (`MergeEngine.NullApsInsertsOneDefaultEvent`) | td file holding the single record `05 00 00 00 00 00 00 00` after its header, aps `null` | a disabled channel counts as exhausted, and only the td event is written | high, not executed | MergeEngine.NullApsInjectsDefaultEvent | MergeEngine.MergedTdOnly |
| source/datToEs.cpp:184-188 | the same comparison with the td input `null`: the never-opened td stream never reports `eof()`, its empty buffer has timestamp 0, which never exceeds the aps one, so `tdLate` is chosen and a default event is written before the aps events (and when no aps record is admitted, the `apsEndOfFile` of line 179 writes it too) | td `null`, aps file holding the single record `05 00 00 00 00 00 00 00` after its header | only the aps event is written | high, not executed | MergeEngine.NullTdInjectsDefaultEvent | MergeEngine.MergedCorrect |
| source/datToEs.cpp:177-181 | when the aps priming loop runs out of records it sets `apsEndOfFile` even though the td channel is already exhausted, and that state writes the td buffer, which was never filled | td file with no record after its header, aps file whose only record is `00 00 00 00 00 00 00 00` | nothing is written | high, not executed | MergeEngine.EmptyTdInjectsDefaultEvent | MergeEngine.MergedCorrect |
| source/aedat.hpp:83-100 | a last header line without a line feed makes `get()` fail. On the fallback path `seekg(0)` then does nothing. Every read of the observable fails without setting `eofbit`, so its `for (;;)` loop never ends | the two bytes `23 01`: `#`, then 0x01, which is not clean | rewind to the start and decode the file as headerless, as the fallback does for every other file | medium, not executed; depends on the standard library's stream rules | Aedat.StuckHeaderNeverEnds | Aedat.HeaderOfFacts |
