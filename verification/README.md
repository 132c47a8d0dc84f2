# ruuvitag-listener in Dafny

A Dafny 4.11 model of the parts of ruuvitag-listener that decide what reaches
its output, with proofs about every packet, every text and every run. Verify
the whole project with `dafny verify dfyconfig.toml`.

| file | models | of |
|---|---|---|
| Hci.dfy | packet and event numbers | src/scanner/hci.rs |
| Bpf.dfy | the classic-BPF machine and the filter program that is built and patched | src/scanner/hci.rs |
| Advertising.dfy | AD structures, the two report parsers, the receive loop's decision | src/scanner/hci.rs |
| FilterLayers.dfy | what the kernel filter and the prefilter may drop | src/scanner/hci.rs |
| ScanSetup.dfy | opcodes, the command socket, the set-up sequence, a controller | src/scanner/hci.rs |
| Throttling.dfy, ThrottleProperties.dfy | the per-device throttle with eviction | src/throttle.rs |
| App.dfy, AppProperties.dfy, AppOptimality.dfy | the processing loop | src/app.rs |
| Listening.dfy | kernel filter, receive loop and processing loop in a row | src/scanner/hci.rs, src/app.rs |
| LineProtocol.dfy, InfluxDb.dfy, FieldTable.dfy | the line protocol reader, the formatter, and what a line tells name by name | src/output/influxdb.rs |
| MacAddresses.dfy, Aliases.dfy, Durations.dfy, Text.dfy | text forms of addresses, aliases and durations | src/mac_address.rs, src/alias.rs, src/throttle.rs |

## Conventions

- Objects that the source updates in place are classes (`Throttle`, `Writer`,
  `DeviceSet`, `Buffer`, `CommandSocket`); loops are loops. Each such method
  is proved equal to a specification function, and the properties are lemmas
  about that function.
- Lemmas named `...Exactly` and the tables of `FieldTable` say what an operation
  means in bytes, characters and numbers, not in terms of the functions that
  compute it.
- Time is in nanoseconds and does not run backwards. A call of the throttle
  carries the two readings it may take: `sweep` while it evicts, `now` after.
- The payload decoder is not part of this model. A report is `Decode(mac,
  payload)`, the call that would be made; `Forward` takes the decoder as a
  parameter.
- Floating-point fields are reals. How a number is displayed is a parameter,
  of which only `IsDisplay` is used: the text is not empty and has no comma,
  equals sign, space, backslash or newline.
- What arrives (packets on the sockets, results on the channel) is a sequence. A
  received packet carries the readings of the clock that are taken when its
  result is handled. An output takes a given number of lines before it fails.

## Where the code differs from what it says

- The comment at src/scanner/hci.rs:308 names subevent 0x02 alone; the
  instructions also accept 0x0D, and so does the model.
- The code names no limit on the scanned offsets. Displacements are cut down to
  a byte, and `CorrectExactlyUpTo125` shows that the program is right on every
  packet exactly for up to 125 offsets; it uses 47.
- The filter documentation calls the scanned offsets common positions.
  `KernelLosesExactlyLate` says which are left out: for every AD offset from 30 to
  225 the filter drops some extended report whose Ruuvi structure starts there, for
  45 to 240 some legacy one. No Ruuvi structure that starts later fits in an event.
  `FiltersAreInvisibleExactly` gives the condition for whole runs.
- The prefilter hides the too-short complaint of the legacy parser
  (`PrefilterLosesNothing`). That concerns only packets queued before the kernel
  filter is attached: what it delivers is never too short (`DeliveredIsParsed`).
- The comment at src/scanner/hci.rs:618 disables scanning first, so that the
  parameters are not refused. `ParametersMeetScanningExactly` shows that this
  works for any replies as long as the reply to the feature query names the
  controller's own family, and gives the exact condition on the replies for it to
  fail; `ForeignRepliesMislead` shows that the code does not rule that out.
- `parse_duration` multiplies hours and minutes without a check. A release
  build wraps around; `ParseInvertsPrinting` gives the exact condition.
- Evicting multiplies the interval by ten, which panics when the product is not
  representable. `Throttle.ShouldEmit` demands it only when the call evicts, and
  `App.RunWithIo` only at the arrivals that evict and that the loop gets to.
- Backslashes are not escaped and a measurement may have no field, so a line is
  read back exactly under the condition of `LineRoundTrip`. The tests of the
  source accept an empty name; so does the reader here.

## Model

| member | source | states |
|---|---|---|
| Bpf.BuildFilter | src/scanner/hci.rs:316-454 | The loop and the patches yield the program of `Program`; for up to 125 offsets it is well-formed and returns 0xFFFF on exactly the wanted packets, 0 on all others. |
| Bpf.EmitFilter | src/scanner/hci.rs:347-436 | The instructions pushed before patching, at every index. |
| Bpf.InstructionsExactly | src/scanner/hci.rs:347-454 | The patched program for up to 125 offsets, every instruction code, displacement and operand as a number. |
| Bpf.WellFormedReturns | src/scanner/hci.rs:420-454 | Any program whose jumps stay inside and that ends in a return reaches a return on every packet. |
| Bpf.ProgramIsWellFormed | src/scanner/hci.rs:438-454 | With up to 125 offsets every patched jump goes forward and stays inside. |
| Bpf.ScanFrom | src/scanner/hci.rs:402-436 | From any check on, the program decides whether the id stands at one of the offsets left, short packets included. |
| Bpf.HeaderRejects | src/scanner/hci.rs:349-398 | A packet that is not an advertising report returns 0. |
| Bpf.FilterIsCorrect | src/scanner/hci.rs:343-454 | For up to 125 offsets: 0xFFFF exactly on event packets with event 0x3E, subevent 0x02 or 0x0D, and 0x99 0x04 within the packet at a scanned offset; otherwise 0. |
| Bpf.StrayIsAccepted | src/scanner/hci.rs:438-454 | With more offsets a cut-down displacement accepts a packet that is not an event. |
| Bpf.CorrectExactlyUpTo125 | src/scanner/hci.rs:343-454 | The program is right on every packet if and only if it scans at most 125 offsets. |
| Advertising.ParseRuuviFromAdData | src/scanner/hci.rs:828-853 | The walk stays in bounds, ends, and finds the first Ruuvi structure of the recursive split. |
| Advertising.NoneHasId | src/scanner/hci.rs:828-853 | There is no payload exactly when no structure has type 0xFF and data beginning with 0x99 0x04. |
| Advertising.FirstRuuviExactly | src/scanner/hci.rs:836-846 | The payload is all that follows the id in the first structure of type 0xFF whose data begin with 0x99 0x04. |
| Advertising.PayloadExactly | src/scanner/hci.rs:828-853 | The same in bytes: consecutive structures from the first byte on, the last of them the first with 0xFF, 0x99, 0x04 after its length byte. |
| Advertising.SplitUndoesEncode | src/scanner/hci.rs:828-852 | Splitting encoded structures gives them back, whatever follows that starts no structure. |
| Advertising.SplitIsLongestPrefix | src/scanner/hci.rs:830-834 | The split is the only reading of the bytes as well-formed structures up to where none can start. |
| Advertising.MatchHasId | src/scanner/hci.rs:836-846 | The id stands two bytes into the structure that is decoded. |
| Advertising.LegacyDecodesExactly | src/scanner/hci.rs:738-779 | In packet bytes: when a legacy report leads to the decoder, with which address and with exactly which bytes after the id of the first Ruuvi structure, and when it is too short. |
| Advertising.ExtendedDecodesExactly | src/scanner/hci.rs:786-824 | The same for an extended report. |
| Advertising.ReceivesExactly | src/scanner/hci.rs:937-948 | Which bytes of a packet pick the parser, and that 0x99 0x04 must stand somewhere in it. |
| Advertising.ForwardsExactly | src/scanner/hci.rs:937-960 | Exactly what is sent on: every measurement, and when verbose every error of the decoder and the complaint about a short packet. |
| Advertising.LegacyRoundTrip | src/scanner/hci.rs:763-778 | Encoding a legacy report and parsing it restores the address and gives the payload of the first Ruuvi structure, or nothing. |
| Advertising.ExtendedRoundTrip | src/scanner/hci.rs:796-823 | The same for an extended report. |
| Advertising.VerboseOnlyAddsErrors | src/scanner/hci.rs:950-960 | Verbose mode adds errors to what is sent on and changes nothing else. |
| FilterLayers.RuuviFilter | src/scanner/hci.rs:343-347 | The attached program is well-formed and delivers exactly the advertising reports with 0x99 0x04 starting at one of offsets 14 to 60. |
| FilterLayers.DecodedHasId | src/scanner/hci.rs:828-852 | A packet that reaches the decoder has 0x99 0x04 at the place its structure gives. |
| FilterLayers.PrefilterLosesNothing | src/scanner/hci.rs:937-948 | The prefilter passes every packet that reaches the decoder; it changes the outcome exactly for short packets in verbose mode. |
| FilterLayers.DeliveredIsParsed | src/scanner/hci.rs:937-948 | What the kernel filter delivers has at least 16 bytes, passes the prefilter, and is never called too short. |
| FilterLayers.KernelLosesNothingEarly | src/scanner/hci.rs:343-454 | The kernel filter passes every decodable packet whose structure starts early enough. |
| FilterLayers.KernelLosesNoLegacy | src/scanner/hci.rs:343-344 | It passes every decodable legacy report with at most 31 bytes of data. |
| FilterLayers.KernelLosesExactlyLate | src/scanner/hci.rs:340-345 | Among packets of at most 258 bytes, and among events with the right length byte, all that decode at a given AD offset pass if and only if it is at most 44 (legacy) or 29 (extended), or past 240 or 225, where none can decode. |
| FilterLayers.LegacyReportArrives | src/scanner/hci.rs:937-948 | An encoded legacy report of at most 31 data bytes passes both filters and reaches the decoder with the right address and payload. |
| FilterLayers.ExtendedReportArrives | src/scanner/hci.rs:937-948 | The same for an extended report with an early structure. |
| ScanSetup.BitOrDisjoint | src/scanner/hci.rs:179 | A bitwise or of disjoint bits is a sum. |
| ScanSetup.HciCommandPacket | src/scanner/hci.rs:178-187 | For any group and command number the pushes give type, opcode in 16 bits low byte first, cut-down length and parameters. |
| ScanSetup.PacketTellsCommand | src/scanner/hci.rs:178-187 | A packet carries its opcode, and determines its command. |
| ScanSetup.PacketBytes | src/scanner/hci.rs:178-187 | Every byte of the packet of a command. |
| ScanSetup.SetupPacketsExactly | src/scanner/hci.rs:594-728 | The four packets of either family, byte for byte. |
| ScanSetup.CommandSocket.ReadCommandComplete | src/scanner/hci.rs:506-556 | The waiting loop returns what `Await` says and leaves the rest of the input. |
| ScanSetup.CommandSocket.SendHciCommandChecked | src/scanner/hci.rs:563-586 | One command sent and judged by its reply, errors included. |
| ScanSetup.CommandSocket.ConfigureFamily | src/scanner/hci.rs:617-706 | Disable, parameters, enable, stopping at the first failure. |
| ScanSetup.CommandSocket.ConfigureLeScan | src/scanner/hci.rs:594-614 | The feature query, then the family its bit picks. |
| ScanSetup.FamilyIsTheBit | src/scanner/hci.rs:594-605 | The extended family is picked if and only if the reply has a byte 8 whose bit of value 16 is set, whatever its other bits are. |
| ScanSetup.FirstMatchDecides | src/scanner/hci.rs:549-554 | A command is judged by the first Command Complete for its opcode, or by an earlier timeout or failure; events for other opcodes change nothing. |
| ScanSetup.NothingDecides | src/scanner/hci.rs:510-516 | Without such an event the wait times out. |
| ScanSetup.ExchangeExactly | src/scanner/hci.rs:506-586 | How every exchange ends and with which error: failed write, timeout, failed poll or read, truncated reply, refused with its status, or the reply. |
| ScanSetup.SucceedsExactly | src/scanner/hci.rs:563-586 | Commands succeed if and only if all are written and each in turn is acknowledged with status 0. |
| ScanSetup.ConfigureSucceedsExactly | src/scanner/hci.rs:594-614 | Set-up succeeds if and only if the query and the three steps of the chosen family are written and acknowledged in order. |
| ScanSetup.ConfigureSendsInOrder | src/scanner/hci.rs:608-706 | What is sent is a prefix of query, disable, parameters, enable of the family that the reply to the query names; each is sent if and only if it can be written and all before it are acknowledged in turn. |
| ScanSetup.SetupIsAccepted | src/scanner/hci.rs:617-706 | A controller in any state accepts the set-up; without the disable step exactly one that is not scanning does. |
| ScanSetup.ConfigureStartsScanning | src/scanner/hci.rs:608-614 | Against a compliant controller with any feature mask, whatever other events come between, set-up succeeds and the controller ends up scanning with the parameters set. |
| ScanSetup.ParametersMeetScanningExactly | src/scanner/hci.rs:608-706 | For any incoming events and any controller: it accepts all that is sent if the reply names its family; parameters reach it while it scans if and only if three writes succeed, query and disable are acknowledged, it scanned before, and the reply names the other family. |
| ScanSetup.ForeignRepliesMislead | src/scanner/hci.rs:617-706 | For every scanning controller there are replies with which set-up succeeds, the parameters meet it scanning, and it is left as it was. |
| Throttling.Throttle.ShouldEmit | src/throttle.rs:77-106 | One call does exactly one `Step` on the map and the counter. |
| Throttling.Throttle.CleanupStale | src/throttle.rs:113-124 | Keeps exactly the entries at most ten intervals old; keeps all for interval zero. |
| Throttling.StepKeepsSimulation | src/throttle.rs:77-125 | A call decides like the throttle that never forgets, and keeps what is forgotten older than ten intervals. |
| Throttling.RunSimulates | src/throttle.rs:77-125 | The simulation holds after every history. |
| Throttling.EvictionIsInvisible | src/throttle.rs:80-124 | For every interval and history each decision is that of the throttle that keeps every entry. |
| ThrottleProperties.GreedyStaysAhead | src/throttle.rs:92-105 | No legal choice of a device's events is larger than what was allowed, nor as large and ending earlier. |
| ThrottleProperties.GreedyIsOptimal | src/throttle.rs:77-125 | The allowed events of a device are a largest choice of its events pairwise an interval apart. |
| ThrottleProperties.RateIsBounded | src/throttle.rs:92-105 | From the i-th to the j-th emission of a device pass at least j - i intervals. |
| ThrottleProperties.SuppressedExactlyWhenCovered | src/throttle.rs:92-105 | An event is suppressed if and only if an allowed event of its device lies less than the interval before it. |
| ThrottleProperties.DevicesDoNotInterfere | src/throttle.rs:77-125 | Each decision is that of a throttle that only served the same device. |
| ThrottleProperties.SweepKeepsActive | src/throttle.rs:119-123 | What survives a sweep is the set of devices active at that check. |
| ThrottleProperties.SpaceIsBounded | src/throttle.rs:80-124 | The map holds at most max(50, devices active at the latest check) + 100 entries. |
| ThrottleProperties.SweepsExactly | src/throttle.rs:80-87 | Evicting happens at every hundredth call that finds more than 50 entries. |
| ThrottleProperties.StepExactly | src/throttle.rs:77-125 | What a call forgets, remembers and leaves alone: evicting drops just the entries more than ten intervals old. |
| App.IsRedundantV6 | src/app.rs:96-105 | V6 of a recorded device is redundant; exactly E1 records a device. |
| App.RunWithIo | src/app.rs:121-163 | The lines on both outputs are those of the specification over the handled inputs, and take up just their room; the loop completes if and only if all lines have room, else it stops exactly at the write that fails. |
| App.RepresentableExactly | src/throttle.rs:119 | The longest interval in nanoseconds with which an eviction does not overflow. |
| App.ThrottleStep | src/app.rs:145-147 | The evicting throttle in the loop decides like the reference in the specification. |
| AppProperties.LinesAreSubsequence | src/app.rs:138-153 | The lines are those of the written inputs, each once and in order. |
| AppProperties.ErrorsAreShown | src/app.rs:154-158 | The error output is empty in quiet mode, else the text of every error, each once and in order. |
| AppProperties.FailedExactly | src/app.rs:154-158 | Those errors are all that arrived. |
| AppProperties.NameExactly | src/app.rs:127-150 | A device goes by the name of the last alias with its address, or by its printed address if there is none. |
| AppProperties.ReaderFinds | src/app.rs:107-153 | From readable output the reader gets, line by line, the measurement name, address, every quantity under its own name and time of the written inputs, and as name the last alias of the device, or its printed address. |
| AppProperties.WrittenExactly | src/app.rs:96-153 | A measurement is written unless it is V6 after an E1 of its device (throttled or not), or a written one of its device is less than the interval old; and only then not. |
| AppProperties.DeviceDecides | src/app.rs:138-153 | In any interleaving an input is written if and only if it is written after only the earlier inputs of its device. |
| AppProperties.DevicesDoNotInterfere | src/app.rs:138-153 | The lines of a device are the whole output of a run fed only with what it sent. |
| AppProperties.RunTogetherAndAlone | src/app.rs:121-163 | The loop run on only one device's inputs never evicts, completes if and only if its lines have room, and writes just the lines that the loop run on all inputs writes for it. |
| AppProperties.IgnoredChangesNothing | src/app.rs:138-160 | Taking out an error or a redundant V6 frame changes no later decision and no line. |
| AppProperties.OutputReadsBack | src/app.rs:107-153 | Splitting the output at newlines and reading each line gives back exactly the written measurements if and only if each has a field, and the measurement name and its resolved name have no newline and no trailing backslash. |
| AppProperties.ReadableNamesSuffice | src/app.rs:122-153 | It does if the measurement name and all aliases are so and each written measurement has a field. |
| AppOptimality.CallsAreLegal | src/app.rs:145-147 | A choice of a device's non-redundant inputs an interval apart is such a choice of the throttle's calls. |
| AppOptimality.LinesAreLargestChoice | src/app.rs:138-153 | The lines of a device are a choice of its non-redundant inputs pairwise an interval apart, in order, and no such choice is larger. |
| Listening.HandlePacket | src/scanner/hci.rs:937-962 | One turn of the receive loop sends on what `Forward` says. |
| Listening.ReceiveLoop | src/scanner/hci.rs:905-964 | The channel gets, in order, what is sent on for each packet. |
| Listening.RunKernelFilter | src/scanner/hci.rs:316-454 | Running the built program on each packet keeps exactly the delivered ones. |
| Listening.YieldingIsDelivered | src/scanner/hci.rs:343-454 | A packet for which something would be sent on is delivered if and only if the id stands at one of offsets 14 to 60. |
| Listening.FiltersAreInvisibleExactly | src/scanner/hci.rs:879-964 | For any decoder and packets, quiet or verbose, the channel gets through both filters what it would get without any if and only if every packet for which something would be sent on has the id at one of offsets 14 to 60. |
| Listening.QuietYields | src/scanner/hci.rs:950-960 | In quiet mode those are the packets that decode without an error. |
| Listening.VerboseKeepsOutput | src/scanner/hci.rs:950-960 | Verbose errors in the channel change no line of the output and no later decision. |
| Listening.Listen | src/app.rs:121-163 | Packets to lines: the output does not depend on the verbosity, nor on the filters as long as every packet that decodes without an error has the id at one of offsets 14 to 60. |
| LineProtocol.UnescapeUndoesEscape | src/output/influxdb.rs:67-103 | Unescaping undoes escaping on every text, backslashes included. |
| LineProtocol.EscapesExactly | src/output/influxdb.rs:67-103 | A backslash goes before commas and spaces, in tags before equals signs as well, and before nothing else. |
| LineProtocol.EscapeIsInjective | src/output/influxdb.rs:67-103 | Different texts are escaped differently. |
| LineProtocol.SpecialsAreGuarded | src/output/influxdb.rs:57-103 | No special character is written without a backslash before it. |
| LineProtocol.EscapeIsIdentityWhenPlain | src/output/influxdb.rs:45-103 | Escaping changes a text if and only if it has a special character. |
| LineProtocol.ReadEscaped | src/output/influxdb.rs:67-103 | An escaped text is read back before a separator if and only if it does not end in a backslash. |
| LineProtocol.ReadWrittenPairs | src/output/influxdb.rs:115-178 | Written pairs are read back whole. |
| InfluxDb.WriteMeasurementName | src/output/influxdb.rs:67-81 | Both paths append the escaped name. |
| InfluxDb.WriteTagValue | src/output/influxdb.rs:88-103 | Both paths append the escaped value. |
| InfluxDb.WriteTags | src/output/influxdb.rs:115-122 | The two tags, the name escaped. |
| InfluxDb.WriteFields | src/output/influxdb.rs:128-178 | The present fields in order, with commas exactly between them. |
| InfluxDb.WriteTimestamp | src/output/influxdb.rs:185-191 | A space and the nanoseconds, 0 before the epoch. |
| InfluxDb.InfluxDbFormatter.Format | src/output/influxdb.rs:199-225 | The whole line. |
| InfluxDb.LineRoundTrip | src/output/influxdb.rs:67-225 | The tokenizer recovers measurement name, tags, fields in order and timestamp if and only if there is a field and neither name ends in a backslash. |
| InfluxDb.LineHasNoNewline | src/output/influxdb.rs:199-225 | A line has a newline exactly when one of the names has. |
| FieldTable.FieldsFollowTable | src/output/influxdb.rs:145-176 | The fields are the present quantities in the order of the code. |
| FieldTable.FieldsExactly | src/output/influxdb.rs:145-176 | Looking up each of the 18 names gives the display of the quantity of that name, pressure divided by 1000, or nothing if it is absent. |
| FieldTable.FieldsWhenMeasured | src/output/influxdb.rs:128-178 | There is a field exactly when some quantity is present. |
| FieldTable.LineTells | src/output/influxdb.rs:199-225 | The reader of a line finds the names, the printed address, every quantity under its own name, and the time, 0 before the epoch. |
| FieldTable.LineInFull | src/output/influxdb.rs:115-122 | The text of a line for names without special characters, keys and separators written out. |
| FieldTable.FieldsInFull | src/output/influxdb.rs:132-146 | The text of two fields written out. |
| MacAddresses.FromStr | src/mac_address.rs:42-58 | The loop with early returns computes `Parse`. |
| MacAddresses.AcceptsExactly | src/mac_address.rs:42-58 | Accepted exactly: six parts joined by colons, each two hex digits or a plus sign and one. |
| MacAddresses.FirstFault | src/mac_address.rs:48-55 | The error names the first faulty part and whether its length or its digits are wrong. |
| MacAddresses.WrongNumberExactly | src/mac_address.rs:43-46 | Refused for the number of parts exactly when there are not five colons, with one more than their number. |
| MacAddresses.PartFaultExactly | src/mac_address.rs:49-55 | Which fault a part has: lengths count UTF-8 bytes. |
| MacAddresses.ParsesExactly | src/mac_address.rs:42-58 | Which address a text means: the value of each of its six parts, digit by digit. |
| MacAddresses.PrintExactly | src/mac_address.rs:18-26 | Every character of a printed address: upper-case digits, high half first, and colons. |
| MacAddresses.ParsePrinted | src/mac_address.rs:18-58 | A printed address, in any case of letters, is parsed back. |
| Aliases.AliasRoundTrip | src/alias.rs:37-50 | A printed address in any case, an equals sign and any name are read as that alias. |
| Aliases.AliasAcceptsExactly | src/alias.rs:37-50 | Accepted exactly: a valid address before the first equals sign. |
| Aliases.AliasExactly | src/alias.rs:37-50 | Which alias a text means: the address before the first equals sign, all the text after it. |
| Aliases.AliasFaultExactly | src/alias.rs:42-44 | A fault of the address is passed on as it is. |
| Aliases.LastAliasWins | src/alias.rs:59-76 | A device goes by the last alias given for it, else by its printed address. |
| Durations.ParsePrintedDuration | src/throttle.rs:150-195 | A printed number with a suffix, white space around its parts, is read in exactly that unit; the factors are numbers, and a product over a u64 wraps around. |
| Durations.ParseInvertsPrinting | src/throttle.rs:150-195 | Parsing gives the true number of nanoseconds if and only if the product that the code forms fits in a u64, unit by unit. |
| Durations.AcceptsExactly | src/throttle.rs:150-195 | Accepted exactly: a u64 with an optional plus sign, white space, a suffix, and white space around. |
| Durations.SecondsExactly | src/throttle.rs:182-194 | Without a suffix and with s, any accepted number counts seconds. |
| Durations.MillisExactly | src/throttle.rs:158-163 | With ms it counts milliseconds. |
| Durations.MinutesExactly | src/throttle.rs:174-179 | With m it counts 60 seconds each, truly if and only if these fit in a u64. |
| Durations.HoursExactly | src/throttle.rs:166-171 | With h it counts 3600 seconds each, truly if and only if these fit in a u64. |
| Durations.RefusesExactly | src/throttle.rs:151-195 | A blank text is empty; any other that is refused is invalid in the unit of its last letters. |
| Text.ParseU64Exactly | src/throttle.rs:159-194 | A plus sign and leading zeros do not matter; the limit is 2^64 - 1. |
| Text.WhitespaceExactly | src/throttle.rs:151 | The characters that trimming removes, by their code points. |
| Text.ReadDecimal | src/output/influxdb.rs:186-190 | The decimal of a number is read back as that number. |
| Text.DecimalExactly | src/output/influxdb.rs:186-190 | The digits are those of base ten, most significant first. |
| Text.SplitJoin | src/mac_address.rs:43 | Splitting undoes joining parts without the separator. |
| Text.ReadLines | src/app.rs:113-114 | Reading the output by lines gives the lines and an empty rest if and only if no line has a newline, else more lines. |

## Left out

- Sockets, `setsockopt`, `poll`, `read`, async tasks and channels: outside calls. A channel holds any number of results and is read after it is filled; the clock readings come with the packets.
- Packets queued before the kernel filter is attached: `Listening` runs it on every packet.
- `src/scanner/bluer.rs`: plumbing over a library that is not part of this model.
- `decode_ruuvi_data` and the per-format decoders: their library is not part of this model.
- Floating-point rounding, NaN and the printed form of floats: displays are opaque texts.
- Packets with more than one report: the parsers read only the first; encoded packets here have one.
- `HciFilter` bit setting: two fixed calls.
- Command-line parsing, exit codes, error wording, backend names.
- Throttle.ShouldEmit: demands that ten intervals are representable when the call evicts, where the source panics.
- App.RunWithIo: demands the same at the arrivals that evict before an output is full; an output fails between lines, so a line written in part is not modelled, nor is a failing `start_scan`.
- ScanSetup.ConfigureStartsScanning: the controller accepts only the commands of one family; other programs that switch scanning in between are not modelled.
