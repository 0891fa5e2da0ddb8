# A verified model of the userspace Razer driver

The repository talks to Razer devices over `hidraw`: it frames a 90-byte report, sends it with
a SET feature request, waits, reads the answer back with a GET, and retries a rejected answer
up to five times. Around that core it picks the right device node, interrogates a device,
keeps a metric registry and renders it for Prometheus; a tool replugs a device by switching
its hub port off and on. This project models those parts and proves what they keep over all
devices, all runs and all inputs. `dafny verify dfyconfig.toml` checks all of it.

## How the model is built

- `Checksum`, `ReportCodec`, `Messages` are the wire form: the XOR checksum, the codec, the
  commands, the acceptance test and the payload readers. Bytes are `bv8`, so the XOR algebra
  is the real one; a 16-bit field is `bv16`; an argument array has exactly 80 bytes.
  `GoldenFrames` pins the commands to the repository's golden vectors.
- `Device` says what a device is: two functions of the whole history of events, one that
  accepts or refuses a SET and one that answers a GET. Every deterministic device, every reply
  script and every timing-dependent device is of this kind, so a theorem about all of them is
  a theorem about any transport. A fault is an errno, a short read is a byte count.
- `Protocol` gives each session operation as a function of device and state; `Session` is the
  session itself, a class over a transport and a clock that share one event log, with a method
  per operation, each proved equal to its function. `TransactCharacterised` and
  `TransactTrace` then say what a transaction is without the loop.
- `OnTheWire` and `TypedOnTheWire` say all of it again in bytes: the frame of each operation,
  the answers accepted, the errors, and what the bytes of an answer tell, through none of the
  codec, acceptance test, constructors and code tables they are about.
- `Runs`, `Independence`, `Registers` and `Interrogation` are about whole sessions: every
  frame and every microsecond, indistinguishability under another transaction id, setters and
  getters against a device with registers, and the read sequence that stops at an idle receiver.
  `Delivery` adds the bound on bad answers: against a device that never answers the
  operations of a run badly five times in a row, the results of its setters and getters are
  known from the operations alone.
- `Enumeration` sorts the node names in place and scans them; its results are restated without
  the sort. `HexText` is the hexadecimal argument of the command line.
- `Labels`, `SampleFormat`, `Metrics` and `Rendering` are the registry and its text. The
  registry is a class whose maps own their histograms. `Saturation` ties its attempt counts to
  the sessions they come from.
- `Exposition`, `Legibility` and `SeriesIdentity` say what that text means to a reader of the
  text exposition format 0.0.4 (sections "Comments, help text, and type information",
  "Grouping and sorting" and "Histograms and summaries"). The format defines three escapes in
  a label value: backslash, quote and line feed. `Standard` rejects any other and `Lenient`
  leaves it as it stands; `Own` is not a reader of the format but the escaper's inverse, which
  also undoes the carriage return. Each theorem is stated for all three.
- `Replug` is the port tool as a machine of steps, because its subject is interruption: any
  step of `main`, of `reenable` or of the signal handler may be followed by another signal,
  any I/O may fail, and a buffered write lands when its file closes.
- `ReplugProgram` proves that machine to run the structured program: `with`, `except`,
  `finally` and exit hook, each by what it leaves behind, for any I/O.

Four statements of the original's documentation do not hold of its code as written, and the
model follows the code:

- `is_receiver_idle` is documented as a *consistent* TIMEOUT. The code consults the fifth
  answer only. `IdleVerdict` gives the exact condition on the five answers (it also needs the
  fifth to declare a size of at most 80), `VerdictIgnoresTheFirstFour` two runs that show it.
- The replug tool promises that the port is always re-enabled. A signal between the write of
  the '1' and the close of its file strands the port: the handler writes '0' and clears the
  flag, then the unwinding `with` closes the file and the '1' lands. `WindowStrandsThePort` is
  that run. `PortUpIffNoSignalInWindow` is the exact condition on every run in which no step
  of writing the '0' fails, whatever prints fail and whatever happens up to the close of the
  '1'; `PortIsGuarded` is what holds outside the window with any faults.
- Unrecognised node names are documented as sorting last. Index 4294967295 is recognised and
  ties with them: `UnrecognisedBeforeTheLastIndex` is such a pair of names and
  `RecognisedFirst` the exact order.
- The metrics are served as `version=0.0.4` of the text format, but a carriage return is
  escaped in a way that format does not define, and one can come from a device: only the end
  of a serial is trimmed. A strict reader rejects such a line, a lenient one may take two
  devices for one. `InnerCarriageReturn` and `TwoDevicesOneSeries` are such registries,
  `ExpositionParsesBack` and `NoDuplicateSeries` the exact conditions.

## Model

| member | source | states |
|---|---|---|
| Checksum.CrcUpdate | crates/razer-proto/src/crc.rs:34-36 | replacing byte i by y moves the checksum by exactly old XOR new when 2 <= i <= 87, and leaves it alone for bytes 0, 1, 88 and 89 |
| Checksum.SingleByteErrorDetected | crates/razer-proto/src/crc.rs:39-41 | every change of one covered byte of a valid frame is detected |
| Checksum.CrcDistributes | crates/razer-proto/src/crc.rs:34-36 | the checksum is linear under byte-wise XOR of frames |
| Checksum.CrcPermutation | crates/razer-proto/src/crc.rs:34-36 | reordering covered bytes is never detected |
| Checksum.HeaderBytesInvisible | crates/razer-proto/src/crc.rs:15-20 | any status and any transaction id leave a frame as valid as it was |
| ReportCodec.WithArgs | crates/razer-proto/src/report.rs:342-350 | the front of the argument array is overwritten and nothing else changes |
| ReportCodec.ToBytes | crates/razer-proto/src/report.rs:354-368 | the buffer filled in place is the wire form `Encode`, checksum stamped last |
| ReportCodec.ComputeCrc | crates/razer-proto/src/crc.rs:34-36 | the fold over a buffer still being filled covers bytes 2..=87 |
| ReportCodec.FromBytes | crates/razer-proto/src/report.rs:374-389 | the decoded report is `Decode` of the buffer |
| ReportCodec.EncodeVerifies | crates/razer-proto/src/report.rs:354-368 | every encoded frame passes the checksum test, and byte 88 is the XOR of the encoded fields |
| ReportCodec.DecodeEncode | crates/razer-proto/src/report.rs:354-389 | decoding an encoded report restores every field, with the checksum stamped, exactly when the status is canonical |
| ReportCodec.EncodeDecode | crates/razer-proto/src/report.rs:354-389 | re-encoding a decoded buffer changes byte 88 only, and restores it exactly when its checksum verified |
| ReportCodec.EncodeInjective | crates/razer-proto/src/report.rs:354-368 | two encodings are equal exactly when the reports agree on all fields but the stored checksum, statuses by byte |
| ReportCodec.StatusRoundTrip | crates/razer-proto/src/report.rs:51-77 | a status survives the wire exactly when it is not an `Unknown` code that has a name |
| GoldenFrames.CommandFrame | crates/razer-proto/src/cmd.rs:32-166 | on the wire every command is its header, its payload, zeros to byte 87 and the XOR of size, class, command and payload |
| GoldenFrames.GoldenVectors | crates/razer-proto/tests/golden_vectors.rs:89-129 | the five golden frames byte for byte, the two driver-mode arms with one checksum |
| Messages.SerialCharacterised | crates/razer-proto/src/parse.rs:134-146 | every serial read is a trimmed NUL-free ASCII prefix of the 22-byte field; the read fails exactly when a non-ASCII byte precedes the first NUL |
| Messages.SerialInvertsPadding | crates/razer-proto/src/parse.rs:134-146 | NUL-padding any serial text and reading it back through the wire form returns it, whatever follows byte 22 |
| Session.Transport.SetFeature | crates/razer-hid/src/mock.rs:197-206 | one SET: logged, and accepted or refused as the device decides |
| Session.Transport.GetFeature | crates/razer-hid/src/mock.rs:214-222 | one GET: logged, the buffer filled in place, the byte count returned |
| Session.Clock.Sleep | crates/razer-hid/src/mock.rs:258-262 | a sleep is logged with its length |
| Session.Session.constructor | crates/razer-hid/src/session.rs:80-94 | a new session takes its transaction id from the device table |
| Session.Session.OverrideTransactionId | crates/razer-hid/src/session.rs:132-135 | the override changes the transaction id of the session and nothing else |
| Session.Session.Send | crates/razer-hid/src/session.rs:164-184 | checks first, then stamps, encodes, sends and waits, as `Protocol.Send` |
| Session.Session.TransactRaw | crates/razer-hid/src/session.rs:191-204 | one exchange, as `Protocol.TransactRaw` |
| Session.Session.Transact | crates/razer-hid/src/session.rs:234-255 | the retry loop ends in the result and state of `Protocol.Transact` |
| Session.Session.SetDeviceMode | crates/razer-hid/src/session.rs:269-273 | as `Protocol.Perform` |
| Session.Session.GetDeviceMode | crates/razer-hid/src/session.rs:281-285 | as `Protocol.Perform` |
| Session.Session.FirmwareVersion | crates/razer-hid/src/session.rs:293-297 | as `Protocol.Perform` |
| Session.Session.Serial | crates/razer-hid/src/session.rs:305-309 | as `Protocol.Perform` |
| Session.Session.SetBrightness | crates/razer-hid/src/session.rs:320-325 | as `Protocol.Perform` |
| Session.Session.GetBrightness | crates/razer-hid/src/session.rs:333-338 | as `Protocol.Perform` |
| Session.Session.SetStaticEffect | crates/razer-hid/src/session.rs:346-351 | as `Protocol.Perform` |
| Session.Session.SetPollRate | crates/razer-hid/src/session.rs:365-376 | as `Protocol.Perform`, either command family |
| Session.Session.GetPollRate | crates/razer-hid/src/session.rs:387-399 | as `Protocol.Perform`, either argument slot |
| Protocol.TransactCharacterised | crates/razer-hid/src/session.rs:234-255 | result and state are those of a transaction if and only if they stop at the first attempt not rejected, or at the fifth: least-indexed accepted answer, immediate transport faults, the fifth rejection's error, the attempt count and the recorded id |
| Protocol.TransactTrace | crates/razer-hid/src/session.rs:191-255 | the events are SET, wait, GET blocks, one per attempt, separated by single 10 ms delays, all but the last answered in full and rejected |
| Protocol.FallbackUnreachable | crates/razer-hid/src/session.rs:250-254 | the fallback error after the loop is never returned |
| Protocol.SucceedsWithinFive | crates/razer-hid/src/session.rs:206-255 | a transaction succeeds exactly when one of its first five exchanges is accepted and all before it were merely rejected, with that response |
| Protocol.FewerThanFiveBadAnswers | crates/razer-hid/src/session.rs:206-255 | when none of five exchanges faults and one is not rejected, the transaction succeeds |
| OnTheWire.FrameInBytes | crates/razer-hid/src/session.rs:164-184 | the buffer handed over is report id 0, then every field of the request at its byte, big-endian count, the session's id in byte 2 and the XOR of bytes 3 to 88 |
| OnTheWire.AcceptanceInBytes | crates/razer-proto/src/parse.rs:91-122 | an answer is accepted exactly when its bytes echo packet count, class and id, sizes are at most 80 and byte 1 is 1 (BUSY) or 2 (SUCCESSFUL); otherwise the first thing wrong with it is the error |
| OnTheWire.ExchangeOnTheWire | crates/razer-hid/src/session.rs:164-204 | one exchange by events and bytes: an unsendable request, a refused SET, a GET error, a read short of 91 bytes, or the decoded buffer |
| OnTheWire.TransactOnTheWire | crates/razer-hid/src/session.rs:234-255 | a transaction by the bytes of its answers: up to four turned away, 10 ms after each, then the one that ends it, with its result, attempt count and id on record |
| OnTheWire.RawOperations | crates/razer-hid/src/session.rs:164-204 | a send stops before the GET, a single exchange is one exchange, and neither touches attempt count or id on record |
| TypedOnTheWire.GuardsStop | crates/razer-hid/src/session.rs:401-430 | an operation is refused, unsent, exactly when its capability bit is clear, it needs an LED the table does not name, or its rate has no legacy code |
| TypedOnTheWire.ModeOnTheWire | crates/razer-hid/src/session.rs:269-285 | the mode frames byte for byte, 0 normal and 3 driver, once per attempt |
| TypedOnTheWire.IdentityOnTheWire | crates/razer-hid/src/session.rs:293-309 | the firmware and serial frames byte for byte |
| TypedOnTheWire.BrightnessOnTheWire | crates/razer-hid/src/session.rs:320-338 | the brightness frames: storage 1, the table's LED byte, the level |
| TypedOnTheWire.StaticEffectOnTheWire | crates/razer-hid/src/session.rs:346-351 | the static effect frame: storage 1, the LED byte, 1, 0, 0, 1, then red, green, blue |
| TypedOnTheWire.SetPollRateOnTheWire | crates/razer-hid/src/session.rs:365-376 | the rate frames of both families, the code dividing 8000 Hz or 1000 Hz |
| TypedOnTheWire.GetPollRateOnTheWire | crates/razer-hid/src/session.rs:387-399 | the rate queries of both families |
| TypedOnTheWire.AnswerTold | crates/razer-proto/src/parse.rs:134-213 | the result of every typed operation by the bytes of the answer it ended in: version and mode from arguments 0 and 1, level from 2, rate from its family's slot, serial from the trimmed field, each error exactly |
| Runs.EveryFrameIsSound | crates/razer-hid/src/session.rs:164-184 | over any sequence of public operations against any device, every frame handed over has report id 0, the session's id in byte 1, a valid checksum, zero protocol and reserved bytes, a size of at most 80, and status 0 when the operations are typed |
| Runs.TransactElapsed | crates/razer-hid/src/session.rs:234-255 | a transaction takes one to five attempts, at most one SET each, and sleeps the device wait per successful SET plus 10 ms between attempts |
| Runs.TimeConserved | crates/razer-hid/src/session.rs:164-255 | over any run, total sleep is exactly successful SETs times the wait plus (attempts minus transactions) times 10 ms, with one to five attempts per transaction |
| Independence.FramesDifferInIdOnly | crates/razer-hid/src/session.rs:168-179 | the frames of one request under two ids agree everywhere but at buffer index 2, and are equal exactly when the ids are |
| Independence.IdIsInvisible | docs/phase3-experiment.md:92-93 | against a device that ignores byte 1, two sessions differing only in the id give equal results, attempts, recorded ids, replies and sleeps on every run |
| Independence.BothRunsAreSound | crates/razer-hid/src/session.rs:120-135 | both such sessions emit only valid frames, pairwise equal but for the id |
| Independence.ScriptsAreBlind | crates/razer-hid/src/mock.rs:197-222 | every reply script is such a device, also one that refuses a SET or faults a GET and then goes on |
| Independence.ScriptMovesOn | crates/razer-hid/src/mock.rs:197-222 | a script moves on after every SET tried, accepted or refused, and after every GET |
| Registers.RetryEffect | crates/razer-hid/src/session.rs:217-227 | however often a SET is re-sent, it has been applied once or not at all; an accepted answer means it was applied, or carries the register |
| Registers.SetReadsBack | crates/razer-proto/src/parse.rs:170-213 | a register written by a setter reads back through the matching getter's slot and code table as the value set |
| Registers.OthersDoNotAlias | crates/razer-proto/src/cmd.rs:32-166 | no other typed operation touches what a getter reads |
| Registers.PerformSeenBy | crates/razer-hid/src/session.rs:269-399 | one operation seen by one getter: refused and unrelated operations change nothing, success installs the value, failure leaves the old or the new one |
| Registers.GettersTellTheLastSetting | crates/razer-hid/src/session.rs:269-399 | with any faults: after any typed run against any register device, a getter that succeeds answers the last successful setting or a later failed one |
| Registers.LastSetterWins | crates/razer-hid/src/session.rs:269-399 | with any faults: after a successful setter, and until another gets past its guards, its getter can only answer that value |
| Delivery.EveryAnswer | crates/razer-hid/src/session.rs:234-399 | against a register device that answers the operations of the run badly fewer than five times in a row, whatever it does with other requests, each setter succeeds or is stopped by its guard, and each getter answers exactly the last setting before it |
| Delivery.FlakyDeviceKeepsRegisters | crates/razer-hid/src/session.rs:217-227 | devices that lose replies, garble them and refuse transfers in any pattern keep registers |
| Delivery.ResponsiveExactly | crates/razer-hid/src/session.rs:206-255 | a garbling register device meets the bound exactly when it never garbles five replies in a row, or no operation of the run gets past its guards |
| Interrogation.ReadDevice | crates/razerd/src/main.rs:345-371 | the method drives a session exactly as `Interrogate` |
| Interrogation.IdleVerdict | crates/razer-hid/src/error.rs:102-127 | the idle verdict holds exactly when the first four answers were full-length and rejected for any reason, and the fifth echoed the request with status TIMEOUT |
| TypedOnTheWire.IdleInBytes | crates/razer-hid/src/error.rs:102-127 | the idle verdict in bytes: five attempts, and the last answer an echo that fits with status byte 4 |
| Interrogation.VerdictIgnoresTheFirstFour | crates/razer-hid/src/error.rs:114-127 | four failures and a TIMEOUT are an idle verdict, four TIMEOUTs and a failure are not |
| Interrogation.RetryFrames | crates/razer-hid/src/session.rs:234-255 | a transaction hands over the same frame once per attempt and no other |
| Interrogation.InterrogationProperties | crates/razerd/src/main.rs:304-371 | a reading is missing exactly when an earlier one found the receiver idle, an idle report ends in the TIMEOUT answer, frames come in firmware, serial, mode order, at most 15 SETs and 15 waits plus 120 ms are spent |
| Interrogation.ReadingsAreResults | crates/razerd/src/main.rs:345-371 | the report is the run of the three reads cut after the first idle one: each reading reports the result at its own place, the end is that of the reads made, and only the last can be idle |
| TypedOnTheWire.ReadingTold | crates/razerd/src/main.rs:304-371 | an answered reading is what the bytes of the answer to its own read tell |
| Enumeration.KeyLeTotalOrder | crates/razer-hid/src/enumerate.rs:43-49 | the sort key is a total order on names |
| Enumeration.RecognisedFirst | crates/razer-hid/src/enumerate.rs:34-40 | recognised names precede unrecognised ones, except index 4294967295, which ties |
| Enumeration.UnrecognisedBeforeTheLastIndex | crates/razer-hid/src/enumerate.rs:34-49 | `event0` sorts before `hidraw4294967295` |
| Enumeration.SmallerIndexFirst | crates/razer-hid/src/enumerate.rs:43-49 | a smaller index sorts first whatever the names look like as text |
| Enumeration.KernelNames | crates/razer-hid/src/enumerate.rs:38-40 | `hidraw` and the decimal text of any 32-bit number has that number as its index |
| Enumeration.RecognisedExactly | crates/razer-hid/src/enumerate.rs:38-40 | exactly the names that are recognised: the prefix, an optional plus sign, digits of that value that fit 32 bits |
| Enumeration.SortByIndex | crates/razer-hid/src/enumerate.rs:43-49 | the in-place sort ends in the unique sorted form of the listing |
| Enumeration.SortedUnique | crates/razer-hid/src/enumerate.rs:43-49 | a multiset of names has one sorted form |
| Enumeration.FindDevice | crates/razer-hid/src/enumerate.rs:68-95 | the loop returns what the scan of the sorted names returns |
| Enumeration.ListRazerNodes | crates/razer-hid/src/enumerate.rs:107-125 | the loop collects what the scan of the sorted names collects |
| Enumeration.ListingOrderIrrelevant | crates/razer-hid/src/enumerate.rs:52-60 | any permutation of the listing gives the same node or error and the same list |
| Enumeration.FindCharacterised | crates/razer-hid/src/enumerate.rs:68-95 | among names that match or whose lookup fails, the key-least decides; with none the device is not found |
| Enumeration.FindPicksFirst | crates/razer-hid/src/enumerate.rs:68-95 | the same without the sort key: of the names that match vendor, product and interface or whose lookup fails, the one earliest by index decides, with its own description or error |
| Enumeration.SmallestIndexWins | crates/razer-hid/src/enumerate.rs:68-95 | no matching recognised name has a smaller index than the node found |
| Enumeration.ListCharacterised | crates/razer-hid/src/enumerate.rs:107-125 | a successful listing holds exactly the Razer nodes, in key order |
| Enumeration.ListedIndicesAscend | crates/razer-hid/src/enumerate.rs:107-125 | listed nodes are the vendor's, each as its source describes it, in ascending order of index |
| Enumeration.ListFails | crates/razer-hid/src/enumerate.rs:107-125 | a listing fails exactly when the directory or some lookup does, with the error of the key-least failing name |
| Enumeration.FindAgreesWithList | crates/razer-hid/src/enumerate.rs:68-125 | when the listing succeeds, a Razer control node is the first listed node with that product and interface, and not found exactly when none is listed |
| HexText.FromStrRadix16 | crates/razerd/src/main.rs:193-194 | stopping at the first overflow computes the positional value when it fits a byte, and fails otherwise |
| HexText.ParseTransactionId | crates/razerd/src/main.rs:170-196 | an id is accepted exactly when the text is one optional 0x or 0X and non-empty hexadecimal digits of that value, below 256; larger values overflow, a leading minus is called out, anything else is no number |
| HexText.HexReadsBack | crates/razerd/src/main.rs:281-283 | the text is twice as long, in lower case, and the pairwise base-16 reader restores every byte |
| HexText.DigitsExactly | crates/razerd/src/main.rs:193-194 | the sixteen digits in either case, and nothing else |
| Labels.EscapeIsSubstitution | crates/razerd/src/metrics.rs:106-111 | the four successive passes are one character-by-character substitution |
| Labels.EscapeShape | crates/razerd/src/metrics.rs:100-111 | escaped text has no raw newline or carriage return and every quote in it follows an odd run of backslashes |
| Labels.ScanEscaped | crates/razerd/src/metrics.rs:100-111 | what each reader makes of an escaped value, whatever follows its closing quote: the value, the value with carriage returns shown as a backslash and an r, or a rejection |
| Labels.ReadBackExactly | crates/razerd/src/metrics.rs:100-111 | a reader of the format gets a value back if and only if it has no carriage return; the escaper's inverse gets every value |
| Labels.CarriageReturnIsLost | crates/razerd/src/metrics.rs:100-111 | the failing value: the strict reader rejects a carriage return, the lenient one confuses it with a backslash and an r |
| Labels.EscapeInjective | crates/razerd/src/metrics.rs:106-111 | distinct values never render alike |
| Exposition.WrittenUnescaped | crates/razerd/src/metrics.rs:269-271 | the transaction id and the bucket bounds, written without escaping, equal their escaped forms |
| Exposition.HexByteMeans | crates/razerd/src/metrics.rs:269-271 | the printed id is `0x` and two upper-case digits that mean the byte |
| Exposition.BoundTextMeans | crates/razerd/src/metrics.rs:77-79 | the printed bucket bounds mean the numeric ones |
| Metrics.Histogram.Observe | crates/razerd/src/metrics.rs:129-137 | the loop counts the observation in exactly the buckets whose bound it does not exceed |
| Metrics.Metrics.RecordTransaction | crates/razerd/src/metrics.rs:190-211 | the whole new registry, each key's histogram updated alone |
| Metrics.Metrics.SetDeviceState | crates/razerd/src/metrics.rs:214-218 | the whole new registry |
| Metrics.Metrics.RecordPoll | crates/razerd/src/metrics.rs:220-228 | the whole new registry |
| Metrics.Receive | crates/razerd/src/metrics.rs:190-228 | a registry that received any sequence of calls is the fold of its call log |
| Metrics.RegistryTotals | crates/razerd/src/metrics.rs:190-211 | counters are totals over the call log: records, attempts, errors per reason, and a histogram whose bucket i counts exactly the durations at or below bound i |
| Metrics.BucketsAreCumulative | crates/razerd/src/metrics.rs:129-137 | buckets never decrease, never exceed `+Inf`, and `+Inf` is the number of transactions |
| Metrics.PollTotals | crates/razerd/src/metrics.rs:214-228 | polls and failures are counted, failures never exceed polls, the last duration is kept, each device shows its last state |
| Metrics.AttemptsPerTransaction | crates/razerd/src/metrics.rs:36-45 | when every record counts one to five attempts, attempts lie between transactions and five times transactions |
| Saturation.RatioIsBounded | crates/razerd/src/metrics.rs:188-211 | records that carry the attempts of session transactions, against any devices, keep that ratio |
| SampleFormat.ParseLabelsInverts | crates/razerd/src/metrics.rs:90-98 | a rendered label set reads as each of its values does, or not at all when one is rejected |
| SampleFormat.RenderLabelsInjective | crates/razerd/src/metrics.rs:90-98 | distinct label sets never render alike |
| SampleFormat.TextReads | crates/razerd/src/metrics.rs:233-448 | a text of well-formed help, type and sample lines reads line for line, no value breaking a line |
| SampleFormat.TextParsesBack | crates/razerd/src/metrics.rs:233-448 | it reads back as meant if and only if the reader is the escaper's inverse or no label value holds a carriage return |
| Rendering.Render | crates/razerd/src/metrics.rs:233-448 | the text appended in loops is the document of the registry |
| Legibility.ExpositionParsesBack | crates/razerd/src/metrics.rs:233-448 | for any registry, every line reads back to its name, labels and value if and only if the reader is the escaper's inverse or no text shown holds a carriage return |
| Legibility.InnerCarriageReturn | crates/razerd/src/metrics.rs:273-277 | a serial with a carriage return inside is not read back |
| SeriesIdentity.NoDuplicateSeries | crates/razerd/src/metrics.rs:233-448 | no two lines show one metric name with one label set, in any order, if and only if the registry's keys stay apart as the reader shows them, which they always do unless it is lenient |
| SeriesIdentity.TwoDevicesOneSeries | crates/razerd/src/metrics.rs:100-111 | two devices that a lenient reader takes for one |
| SeriesIdentity.LabelNamesDistinct | crates/razerd/src/metrics.rs:233-448 | no line gives a label name twice |
| SeriesIdentity.FamiliesAreGrouped | crates/razerd/src/metrics.rs:233-448 | each family has one type line, right after its help line, and all its samples follow it with no other family in between |
| SeriesIdentity.DevicesShown | crates/razerd/src/metrics.rs:259-354 | every device is shown under its spelled-out labels, its id as text that means it, with every reading known of it |
| SeriesIdentity.CountersShown | crates/razerd/src/metrics.rs:357-398 | every counter is shown under its device and command or reason, with its value |
| SeriesIdentity.HistogramsShown | crates/razerd/src/metrics.rs:399-430 | every histogram is shown, each bucket under a bound that means the numeric one |
| SeriesIdentity.ScalarsShown | crates/razerd/src/metrics.rs:233-448 | the version, the uptime and the poll metrics are shown with their values |
| SeriesIdentity.TypesShown | crates/razerd/src/metrics.rs:233-448 | every family is declared under its name with its type |
| SeriesIdentity.HeadersWritten | crates/razerd/src/metrics.rs:233-448 | each family has its own help line and type line, as the format spells them |
| SeriesIdentity.HistogramInOrder | crates/razerd/src/metrics.rs:399-430 | a histogram is written by ascending bound, `+Inf` last, then sum and count |
| SeriesIdentity.DevicesInOrder | crates/razerd/src/metrics.rs:82-88 | devices are visited in order of name, then product id |
| SeriesIdentity.CountersByKey | crates/razerd/src/metrics.rs:357-398 | a counter family has one line per key, in the order of the keys |
| Rendering.SerialsStayPrivate | crates/razerd/src/metrics.rs:22-24 | unless opted in, the exposition does not depend on any serial |
| Replug.RunSafe | tools/usb_replug.py:92-136 | the invariant "port down implies flag set", with what it needs, survives every step outside the window |
| Replug.PortIsGuarded | tools/usb_replug.py:92-136 | on every run with no signal in the window, a port that is down is marked, and at the end it is up unless the last re-enable attempt failed |
| Replug.PortUpIffNoSignalInWindow | tools/usb_replug.py:97-136 | when no step of writing the '0' fails, whatever prints do, the process leaves the port up if and only if no signal falls between the write of the '1' and the close of its file |
| Replug.WindowStrandsThePort | tools/usb_replug.py:126-136 | the run in which the handler clears the flag before the pending '1' lands |
| ReplugProgram.CallCompletes | tools/usb_replug.py:97-108 | a call of `reenable` nobody interrupts, for any I/O: the world it leaves and whether it raises |
| ReplugProgram.HandlerCompletes | tools/usb_replug.py:110-112 | the handler calls `reenable` and then exits into what it interrupted |
| ReplugProgram.CallInterrupted | tools/usb_replug.py:100-108 | an exception reaching `reenable` closes its file, is reported if ordinary and raised in its `try`, and passes otherwise |
| ReplugProgram.MainInterrupted | tools/usb_replug.py:124-136 | an exception reaching `main` closes the file, lands a pending '1', and goes to the `finally` or the exit hook |
| ReplugProgram.MainCompletes | tools/usb_replug.py:124-150 | the program no signal reaches, for any I/O: it disables the port and re-enables it in its `finally` and again in its exit hook |
| ReplugProgram.SignalledInTry | tools/usb_replug.py:110-136 | one signal outside the window: the handler, the `finally` and the exit hook each get their turn |

## Left out

- Ioctls, errno values, the hardware opt-in token and `HidrawDevice`: foreign calls; the transport contract is the abstract device.
- Devices that answer a GET with an error other than an errno: the transport trait documents only that one.
- The sysfs walk, `read_sysfs_state` and `usb_parent_dir`: a source of metadata is a listing, a lookup and a path function.
- The three device table rows: every theorem takes any table entry.
- `set_effect_none`, `BadCrc` and the hertz conversions: no session operation uses them.
- The mismatch error's one shape with a field name and two 32-bit numbers: one constructor per field, in the field's own width.
- Error and message texts: an error is a constructor, and a failed reading carries the error rather than its text.
- The serial as a string: it is a sequence of ASCII bytes.
- Counter overflow at 64 bits and the 32-bit attempt count, which never exceeds five.
- Floating point: durations are whole nanoseconds, and number formats are parameters.
- Help texts, the crate version and the uptime: parameters of the exposition, as is the absence of newlines in them. The readers skip the help text itself and take a value to be the rest of its line.
- `serve`, `handle`, the registry's lock and its poisoning: sockets and threads.
- `info`, `list`, `usage`, the watch loop and the journal count: printing.
- Replug.PortIsGuarded: starts with the handlers and the exit hook installed; a signal before that kills the process with the port still up. Device search and the path of the port attribute are not modelled, and SIGKILL cannot be handled.
- Replug.PortUpIffNoSignalInWindow: when the open, write or close of the '0' fails, or the close of the '1' during an exception, only the direction of `PortIsGuarded` is proved, since such a step may leave the port either way.
