# EcoFlow Energy: a verified model

EcoFlow Energy is a Home Assistant integration for EcoFlow devices. This project models its
most delicate logic in Dafny 4.11 and proves what it promises. `dafny verify dfyconfig.toml`
checks everything; `README.md` names the members that carry the results.

- **The Modbus/TCP register scan** (`Modbus`, `ModbusLink`, `Inverter`, `BlockRead`,
  `BlockProofs`, `RegisterMap`, `Scan`, `ScanProofs`, `ScanExample`). A read-only client keeps one
  TCP connection to an inverter. The class `Wire` is the adversary: it delivers any part of what is
  pending, times out, resets, closes and answers with any frame, and logs every socket operation.
  `Link` keeps the invariant that an open connection between calls has nothing outstanding, so no
  late reply is ever taken for an answer; how each call ends is stated over that log. The block
  read is proved against the run of calls it made, and the whole scan against the report of all
  runs; each answer in a run is traced to the reply on the wire it came from, so what `Inverter`
  asks of the device's replies carries over to the report. Frames follow the MBAP header of section
  3.1.3 of the MODBUS Messaging on TCP/IP Implementation Guide V1.0b and function 0x03 of section
  6.3 and the exception replies of section 7 of the MODBUS Application Protocol Specification
  V1.1b3.
- **The diagnostics redaction** (`Base64`, `Aliases`, `TailMask`, `Redaction`, `RedactionProofs`).
  A recursive rewrite of a diagnostics tree threads one growing alias table through keys and
  values, decodes base64 serials (section 4 of RFC 4648) and masks device names a second time.
  The regular expressions are explicit scanners.
- **The listen-only probe** (`Probe`, `ProbeStatus`). Event loop, watchdog, stop and any number of
  reconnect attempts are a state machine whose steps interleave freely; a second model is the
  connection history and the sentence a reader is told.
- **The charging-history ledger** (`OrderedDict`, `Ledger`, `LedgerProofs`, `ChargingHistory`).
  Orders are merged by identity, totals are grouped per vehicle, and a coordinator saves, reads
  back and only then publishes, against a store that can fail or lie at every call and records how
  each save and load ended.
- **The config entries** (`ConfigEntries`, `CaptureWindow`). Setup, options, reconfigure,
  credentials, expiry and removal are methods of one `Registry` that holds all entries, the loaded
  ones and every reload scheduled; the capture window is followed over whole timed runs.
- **The entity write gate** (`WriteGate`, `WriteGateProofs`, `WriteGateBounds`). The gate in front of
  Home Assistant's state machine with the optimistic lock of numbers and switches, over runs of
  updates and commands and over the restarts between them.
- **Firmware revisions** (`Firmware`). The dotted printer against a parser of its own.
- `Text` holds decimal digits, stripping and number types for all of them.

Where the original updates objects or loops, the model is a class or a method proved against a
specification function; the lemmas are about those functions.

## Where the code does not keep a promise everywhere

Each of these is stated in the model with the exact condition.

- A serial and its encoded form share one alias only when the plain serial is not itself the
  encoding of a serial (`Aliases.EncodedSharesAlias`; `Base64.LongSerialCanBeAnEncoding` shows one).
- The serial does not stay hidden altogether: two matching devices give the same report exactly when
  the serial block is not answered or their serials look alike, of one length with the same first
  four characters (`ScanProofs.SerialStaysHidden`; `ScanExample.ReportsCanDiffer` shows two that the
  report tells apart).
- An entity added while available with a live value has a gate that remembers none: as long as
  nothing but updates without a value follow, the old value stays on display. That is the only
  exception (`WriteGateProofs.EveryUpdateShowsTheTruth`, `WriteGateProofs.EveryUpdateShowsTheSwitch`;
  `WriteGateProofs.ClearedNumberStrands` and `WriteGateProofs.ClearedSwitchStrands` show one each).
- A command publishes the bounds of the moment without remembering them. Sent inside the lock while
  the device has moved the bounds, it leaves them on display when they move back
  (`WriteGateBounds.ReturnedBoundsStrand` on the Delta 3 reserve;
  `WriteGateBounds.CommandCanStrandBoundsIff` gives the exact condition on a command).
- Bounds the device stops deriving stay on display until something else is written
  (`WriteGateBounds.LapsedBoundsStrand` on a feed-to-grid slot; `WriteGateBounds.BoundsShownIff`
  says over any run when the bounds shown are the ones that hold).
- A cloud entry switched to Local and back is not the entry it was when it stored anything beyond
  what setup writes for the sign-in used: a running capture, the vehicle energy setting and the keys of
  the other mode are lost, and a title that happened to be the generated Local one is replaced
  (`ConfigEntries.ThereAndBackIff` gives the exact condition, `ConfigEntries.ThereAndBackLoses` an
  entry that loses its capture and its keys).

## Model

| member | source | states |
|---|---|---|
| Modbus.RequestRoundTrip | documentation/tools/register_scan.py:165-174 | a frame exists exactly for function 3 with 1 to 125 registers and fields that fit; its twelve bytes are spelled out, and the device's own parser reads back transaction, unit, address and count |
| Modbus.WordsIffCarried | documentation/tools/register_scan.py:237-252 | words are read from a reply exactly when its header bytes carry this transaction id and its own length, function and byte count fit, and each word is its two bytes, the high one first |
| Modbus.RefusedIffException | documentation/tools/register_scan.py:242-247 | a refusal is read from exactly the replies with this transaction id and function 0x83, of any length, with their own code |
| Modbus.WrongReplyIff | documentation/tools/register_scan.py:237-252 | which of the three errors every other reply is: wrong header, wrong length, wrong function or byte count |
| ModbusLink.Wire.SendAll | documentation/tools/register_scan.py:220-225 | the assumption on the peer: at most one complete frame for a request, on that request's connection; sending itself may time out or be cut off |
| ModbusLink.Wire.Recv | documentation/tools/register_scan.py:227-235 | the adversary: any part of what is pending, or a timeout, a reset or an end although something is pending |
| ModbusLink.Link.Connect | documentation/tools/register_scan.py:194-212 | a fresh connection has nothing unread; a failure leaves none open and is reported by its kind |
| ModbusLink.Link.Recv | documentation/tools/register_scan.py:227-235 | chunks of any size add up to exactly the bytes asked for, in order; the read timed out exactly when the last receive did, and was lost exactly when it was a reset or an end |
| ModbusLink.Link.Receive | documentation/tools/register_scan.py:242-252 | an answer is what the one pending frame means, and nothing stays unread unless the link is broken; late exactly after a timeout, lost exactly after a reset or an end |
| ModbusLink.Link.Exchange | documentation/tools/register_scan.py:237-252 | one request for exactly these registers with the next transaction id from 1 to 65535; answered by the reply to that very request, late exactly when sending or receiving timed out, lost exactly when it was cut off |
| ModbusLink.Link.TryOnce | documentation/tools/register_scan.py:259-263 | a connect exactly where no connection is open, then one exchange; a connect that fails sends nothing |
| ModbusLink.Link.Attempts | documentation/tools/register_scan.py:259-274 | over the log of all socket operations: no answer exactly when the last one timed out, a lost connection exactly when the second attempt was cut off too; a first cut-off is always followed by a new connect and a second attempt, a timeout by nothing |
| ModbusLink.Link.Read | documentation/tools/register_scan.py:254-274 | what Attempts says of every call, and the invariant of an open connection over every run; words, refusals and errors of a reply come from the reply to the last request of this call; a timeout or an error leaves the connection closed |
| Inverter.HonestRun | documentation/tools/register_scan.py:237-274 | over any run whose replies on the wire are the device's words, exceptions or nothing, no call carries a word the device does not hold there |
| Inverter.ObeyingRun | documentation/tools/register_scan.py:237-274 | over any run whose replies refuse exactly what holds a refused register, the outcomes are the device's answers, in the run's own pattern of codes and silences |
| BlockRead.ReadSingles | documentation/tools/register_scan.py:318-335 | the fallback asks one register at a time, in order, until a broken link or five timeouts in a row, and shows exactly what those calls brought |
| BlockRead.ReadBlock | documentation/tools/register_scan.py:289-338 | a block is what its run of calls amounts to, each answer traced to a reply on the wire; at most 2 * (1 + count) frames, all for registers of the block |
| BlockProofs.BlockRefinesSingles | documentation/tools/register_scan.py:289-338 | on a wire whose device refuses a block exactly when it refuses a register in it, with any exception codes, the block read shows what reading each register alone shows; complete when all registers are served, nothing when none is, partial otherwise |
| BlockProofs.EveryWordIsRight | documentation/tools/register_scan.py:289-338 | on a wire with honest replies, and any timeouts, resets and broken links, every word shown is the device's word of that register |
| BlockProofs.BlockIsItsCalls | documentation/tools/register_scan.py:289-338 | the whole block is asked for first; its words make the block, a broken link ends it, and after a refusal or a timeout the registers follow one by one up to a broken link or the fifth timeout in a row, with the result, status, detail and every word spelled out |
| BlockProofs.EarlyStop | documentation/tools/register_scan.py:321-335 | registers stay unread only after a broken link or five consecutive timeouts, and the block says so |
| BlockProofs.SameCallsSameBlock | documentation/tools/register_scan.py:289-338 | runs that differ in the words of hidden registers only give blocks that differ there only |
| BlockProofs.SameAnswersSameCalls | documentation/tools/register_scan.py:289-338 | two devices with the same refusals and silences, call by call, see the same calls, whatever their hidden words are |
| Scan.MaskIff | documentation/tools/register_scan.py:351-353 | a masked serial keeps its length and first four characters and is stars behind them, so two are equal exactly when length and first four characters agree |
| Scan.ReadPlan | documentation/tools/register_scan.py:374-395 | the blocks of any plan in order, the words known and the last serial found; at most 2 * sum of (1 + count) frames, each within a block of the plan |
| Scan.PlanOfTheScan | documentation/tools/register_scan.py:374-395 | the plan of the scan fits the protocol and makes at most 200 calls |
| Scan.ScanDevice | documentation/tools/register_scan.py:374-462 | at most 400 frames on the wire, every one a read inside the plan; every block shows what its calls brought; every reading is answered exactly when all its registers were and is then their number, low word first, with plausibility by the bounds; over honest replies all words, numbers, product, firmware and fault events are the device's own |
| Scan.ReportOfKnown | documentation/tools/register_scan.py:397-462 | whatever came over the wire, the readings, product, firmware and fault events of the report tell exactly the words that were answered, and printed words read back to them in hexadecimal |
| Scan.PackedTextReads | documentation/tools/register_scan.py:347-348 | text packed two characters a word, high byte first, reads back, with zero bytes dropped |
| Scan.NonZeroParts | documentation/tools/register_scan.py:454-454 | the fault events are the non-zero words in their order |
| RegisterMap.FloatExponent | documentation/tools/register_scan.py:134-135 | the pattern of one is the number one, a step of the exponent doubles the number, the sign bit negates it |
| RegisterMap.FloatFraction | documentation/tools/register_scan.py:134-135 | within one exponent the numbers are evenly spaced by the fraction, below the smallest one too |
| Scan.BuildReport | documentation/tools/register_scan.py:397-462 | the loops over registers and blocks build the report the other results are about: one reading per register of the table, one entry per block, identity withheld unless the product matches |
| ScanProofs.WordOrder | documentation/tools/register_scan.py:126-135 | two registers hold a 32-bit number, or a float's pattern, low word first |
| ScanProofs.FirmwareIsDotted | documentation/tools/register_scan.py:423-427 | the firmware text of the report parses back to the number in the two registers |
| ScanProofs.ReportHidesSerial | documentation/tools/register_scan.py:341-462 | blocks that differ in serial words only give equal reports exactly when a matching product's masked serials agree |
| ScanProofs.ReportWithholdsIdentity | documentation/tools/register_scan.py:423-436 | for a product that does not match, the report is the same for any contents of the identity blocks |
| ScanProofs.SerialIsTheDevices | documentation/tools/register_scan.py:341-348 | over an honest wire the serial a scan finds is the text of the device's own serial registers, exactly when the serial block was answered in full; the report shows it masked exactly for a product that matches |
| ScanProofs.SerialStaysHidden | documentation/tools/register_scan.py:341-462 | over two whole scans under one pattern of refusals and silences, of devices that differ in serial words only, the reports are equal exactly when the product does not match, the serial block is not answered, or the devices' serials have one length and the same first four characters |
| ScanExample.ReportsCanDiffer | documentation/tools/register_scan.py:341-462 | two whole scans of devices whose serials start with different letters, with different reports |
| ScanProofs.IdentityStaysHidden | documentation/tools/register_scan.py:374-462 | over two whole scans under one pattern of refusals and silences, of devices that differ anywhere in 0x0003 to 0x000C, the reports are equal when the product does not match |
| Base64.SymbolsOfTheStandard | custom_components/ecoflow_energy/diagnostics.py:136-141 | the sixty-four symbols and their values are the table of RFC 4648, entry by entry, and nothing else is a symbol |
| Base64.DecodedQuad | custom_components/ecoflow_energy/diagnostics.py:136-141 | four symbols and three bytes are one number of twenty-four bits, and the rest of the string decodes on its own |
| Base64.DecodedEnding | custom_components/ecoflow_energy/diagnostics.py:136-141 | a padded last quad stands for one or two bytes, the spare bits dropped, and which ones decode at all |
| Base64.DecodeSerialIff | custom_components/ecoflow_energy/diagnostics.py:121-148 | the four gates accept exactly the strings of twenty characters or more that decode to fifteen or more upper-case letters and digits |
| Base64.SerialIff | custom_components/ecoflow_energy/diagnostics.py:58-58 | a serial is fifteen or more of thirty-six characters |
| Base64.ShapeIffDecodes | custom_components/ecoflow_energy/diagnostics.py:103-118 | the shape check is exact: with it the strict decoder never fails, without it it always does |
| Base64.DecodeEncode | custom_components/ecoflow_energy/diagnostics.py:136-141 | decoding an encoding gives the bytes back |
| Base64.EncodedSerialIsRecognised | custom_components/ecoflow_energy/diagnostics.py:121-148 | the encoding of every serial of fifteen or more characters passes all four gates and comes back as the serial |
| Base64.DecodedSerialIsShorter | custom_components/ecoflow_energy/diagnostics.py:121-148 | an encoded serial is never its own decoding |
| Base64.LongSerialCanBeAnEncoding | custom_components/ecoflow_energy/diagnostics.py:121-148 | some plain serials are also encodings of serials |
| Aliases.AliasKeepsTable | custom_components/ecoflow_energy/diagnostics.py:257-262 | aliasing only adds to the table and keeps placeholders and serials one to one |
| Aliases.NumberedInOrder | custom_components/ecoflow_energy/diagnostics.py:257-262 | the first serial met gets the bare placeholder, each further one the number of serials met up to it |
| Aliases.ExactlyTheRunsAreAliased | custom_components/ecoflow_energy/diagnostics.py:268-268 | an alias goes to exactly the maximal runs of fifteen or more serial characters |
| Aliases.RedactedTextIsSettled | custom_components/ecoflow_energy/diagnostics.py:253-268 | no run of fifteen serial characters and no encoded serial is left, for fewer than 10^14 serials |
| Aliases.UnredactText | custom_components/ecoflow_energy/diagnostics.py:253-268 | with the finished table a string without stars reads back: an encoded serial as its serial, everything else as itself |
| Aliases.SameRedactionIffSameCanonical | custom_components/ecoflow_energy/diagnostics.py:238-268 | two strings of one pass end up equal exactly when one serial, plain or encoded, stands behind both |
| Aliases.EncodedSharesAlias | custom_components/ecoflow_energy/diagnostics.py:129-134 | the encoded and the plain form get one alias exactly when the plain form is no encoding itself |
| TailMask.SerialTails | custom_components/ecoflow_energy/diagnostics.py:286-301 | exactly the four-character endings of the serials of eight or more characters, each once |
| TailMask.FoldIff | custom_components/ecoflow_energy/diagnostics.py:319-328 | which characters are one without case: letters and their capitals, and four letters beyond ASCII |
| TailMask.PlaceholderIff | custom_components/ecoflow_energy/diagnostics.py:181-181 | a placeholder is the bare marker or one with a number, in any case, and nothing else |
| TailMask.NamesAreMasked | custom_components/ecoflow_energy/diagnostics.py:304-328 | after both passes no ending is left outside a placeholder in any case, every placeholder of the first pass is there in order, nothing but endings was replaced, and clear text is unchanged |
| TailMask.SubstituteIsComplete | custom_components/ecoflow_energy/diagnostics.py:319-328 | the alternation leaves no ending outside placeholders and keeps them all |
| TailMask.SubstituteReplacesTailsOnly | custom_components/ecoflow_energy/diagnostics.py:324-328 | for any text and any endings the result is the text with some endings replaced by the bare placeholder |
| TailMask.MaskedTextIsSettled | custom_components/ecoflow_energy/diagnostics.py:277-278 | masking a name never creates a new serial or encoded serial |
| Redaction.KeyRules | custom_components/ecoflow_energy/diagnostics.py:160-172 | the two keys whose values pass as they are and the two whose values are masked twice |
| Redaction.Redactor.AliasOf | custom_components/ecoflow_energy/diagnostics.py:257-262 | the shared table after one lookup and the placeholder it gives |
| Redaction.Redactor.SubstituteRuns | custom_components/ecoflow_energy/diagnostics.py:268-268 | the left-to-right loop over one string equals the substitution of maximal runs |
| Redaction.Redactor.RedactValue | custom_components/ecoflow_energy/diagnostics.py:221-283 | the pass over a tree with one shared table equals the threaded rewrite the lemmas are about |
| RedactionProofs.TreeKeepsTable | custom_components/ecoflow_energy/diagnostics.py:221-283 | over a whole tree the table stays one to one and only grows |
| RedactionProofs.TableIsInOrder | custom_components/ecoflow_energy/diagnostics.py:269-283 | over a whole tree the serials are looked up in the order they are met: entry by entry, a key before its value, a captured frame not at all |
| RedactionProofs.RedactionSettlesTheTree | custom_components/ecoflow_energy/diagnostics.py:221-283 | no key and no value outside the captured frames holds a serial or an encoded serial afterwards |
| RedactionProofs.RedactionIsIdempotent | custom_components/ecoflow_energy/diagnostics.py:221-283 | a second pass without name endings changes nothing |
| RedactionProofs.FramesAreKept | custom_components/ecoflow_energy/diagnostics.py:273-275 | captured frames pass unchanged under their own key |
| RedactionProofs.TreeNamesAreMasked | custom_components/ecoflow_energy/diagnostics.py:271-280 | no device or product name at any depth of the tree shows a known serial ending outside a placeholder |
| RedactionProofs.RedactionRestores | custom_components/ecoflow_energy/diagnostics.py:221-283 | with the finished table the whole tree, keys included, reads back |
| RedactionProofs.KeysCollapseExactly | custom_components/ecoflow_energy/diagnostics.py:238-280 | two dictionary keys become one exactly when one serial stands behind both, so battery packs stay apart |
| Probe.StepKeepsInv | custom_components/ecoflow_energy/device_probe.py:295-407 | every interleaved step keeps the invariant: a session after the stop has an attempt that will end it |
| Probe.NoSessionSurvives | custom_components/ecoflow_energy/device_probe.py:392-407 | over any run, once stop and all attempts are over, no session is up |
| Probe.QuietStaysQuiet | custom_components/ecoflow_energy/device_probe.py:304-305 | no later tick or network event brings a session back |
| Probe.StoppedRunIsBounded | custom_components/ecoflow_energy/device_probe.py:323-356 | after the flag only a bounded number of steps of stop and attempts remain, however ticks and network events interleave |
| Probe.StopNeverStuck | custom_components/ecoflow_energy/device_probe.py:323-407 | until all is quiet some step of the stop or an attempt can go |
| Probe.EnoughStepsEndQuiet | custom_components/ecoflow_energy/device_probe.py:323-407 | whatever the schedule, once as many steps of the stop and the attempts were taken as there was work at the flag, all is quiet without a session |
| Probe.StopCompletes | custom_components/ecoflow_energy/device_probe.py:392-407 | from every state after the flag the remaining work ends with no session at all |
| Probe.StopFromAnywhere | custom_components/ecoflow_energy/device_probe.py:392-407 | from every reachable running state a stop can be run to its end, with no session and no further connect |
| Probe.StoppedBuildsNothing | custom_components/ecoflow_energy/device_probe.py:323-326 | after the flag no attempt is started, counted or let past its first check, over any run |
| Probe.StepStartsAttempts | custom_components/ecoflow_energy/device_probe.py:304-320 | a tick that finds the probe running and its link down starts exactly one attempt, any other tick nothing, and no other step starts one |
| Probe.StepAdvances | custom_components/ecoflow_energy/device_probe.py:323-356 | each step moves exactly the attempt it concerns along its way, out at the first check after the flag and undone at the second, and only a begin before the flag is counted |
| Probe.AttemptsAreDownTicks | custom_components/ecoflow_energy/device_probe.py:304-320 | over any run the attempts are as many as the ticks that found the probe running and down |
| Probe.DropIsNotPermanent | custom_components/ecoflow_energy/device_probe.py:555-577 | from every reachable running state, with any attempts under way, a drop and a tick can be followed to a new session that is the only one |
| Probe.AttemptsOverlap | custom_components/ecoflow_energy/device_probe.py:304-337 | while the link is down any number of attempts can be past their first check at once |
| Probe.HeldBackAttemptEnds | custom_components/ecoflow_energy/device_probe.py:331-356 | an attempt held back ends without touching a session |
| ProbeStatus.StatusRecorder.OnStatus | custom_components/ecoflow_energy/device_probe.py:266-293 | one event updates exactly the fields of its kind |
| ProbeStatus.CountersCount | custom_components/ecoflow_energy/device_probe.py:266-293 | over any run the three counters are the numbers of connects, drops and refusals |
| ProbeStatus.RefusalExplainsEmptyCapture | custom_components/ecoflow_energy/device_probe.py:234-264 | a session that never came up is reported as refused exactly when some login was refused, with the last refusal's code and words |
| ProbeStatus.ConnectedOnceIsRemembered | custom_components/ecoflow_energy/device_probe.py:234-264 | a session that is down is reported as connected earlier exactly when it once was |
| ProbeStatus.LastEventExplains | custom_components/ecoflow_energy/device_probe.py:234-264 | without a connect and a refusal the last event decides between a closed link and no reply; a live session is listening |
| ProbeStatus.LastEventRecorded | custom_components/ecoflow_energy/device_probe.py:279-293 | code and words are those of the last event, a connect reading as code zero |
| ProbeStatus.LastTimesRecorded | custom_components/ecoflow_energy/device_probe.py:279-288 | the times are those of the last connect and of the last drop |
| OrderedDict.PutAllWorks | custom_components/ecoflow_energy/ecoflow/charging_history.py:82-83 | a dictionary update holds the later values and everything else as before |
| Ledger.RowIff | custom_components/ecoflow_energy/ecoflow/charging_history.py:45-81 | exactly which rows are taken in, which field becomes key, vehicle, name, energy and end, and which rows are passed over |
| Ledger.IdTextIff | custom_components/ecoflow_energy/ecoflow/charging_history.py:56-65 | an id is a whole number in decimal or a text that is not blank |
| LedgerProofs.MergeKeepsOrders | custom_components/ecoflow_energy/ecoflow/charging_history.py:33-83 | a merge never drops a stored order and keeps the ledger well formed |
| LedgerProofs.MergeIsUpsert | custom_components/ecoflow_energy/ecoflow/charging_history.py:33-83 | an order of the response has the response's record, every other order its own |
| LedgerProofs.MergeTwice | custom_components/ecoflow_energy/ecoflow/charging_history.py:33-83 | merging the same response again changes nothing |
| LedgerProofs.ByEndKeepsSums | custom_components/ecoflow_energy/ecoflow/charging_history.py:98-110 | sorting by end time neither loses energy nor moves it between vehicles |
| LedgerProofs.NewTotalsAreRight | custom_components/ecoflow_energy/charging_history.py:105-111 | published energy and sessions are, per vehicle, the sums over the orders; no published vehicle disappears, and one without an order keeps its name at zero |
| LedgerProofs.EnergyIsConserved | custom_components/ecoflow_energy/charging_history.py:105-111 | all published energy together is the energy of all orders |
| LedgerProofs.LatestOrderNames | custom_components/ecoflow_energy/ecoflow/charging_history.py:98-110 | a vehicle carries the name of its latest completed order that has one, the last in the ledger among equal ends |
| LedgerProofs.EarliestOrderFlags | custom_components/ecoflow_energy/ecoflow/charging_history.py:101-104 | whether a vehicle is the one without a profile is what its earliest order says |
| LedgerProofs.ValidIffTotalsRight | custom_components/ecoflow_energy/ecoflow/charging_history.py:113-161 | a stored ledger is accepted exactly when its orders are well formed and its totals are their sums |
| LedgerProofs.SavedLedgerIsAccepted | custom_components/ecoflow_energy/charging_history.py:105-115 | what an update saves, the next restore accepts |
| LedgerProofs.SamePollAgain | custom_components/ecoflow_energy/charging_history.py:105-118 | the same response again leaves ledger and totals as they are |
| ChargingHistory.Coordinator.Restore | custom_components/ecoflow_energy/charging_history.py:67-90 | memory holds the loaded ledger exactly when it could be read and adds up, else the empty start; a load fault is remembered |
| ChargingHistory.Coordinator.SaveVerified | custom_components/ecoflow_energy/charging_history.py:112-115 | one save, and one read-back unless the save faulted; the result is the fault of the save, of the load, or of a ledger that is not the saved one, and none exactly when both succeeded |
| ChargingHistory.Coordinator.PublishRows | custom_components/ecoflow_energy/charging_history.py:104-118 | rows are published exactly when nothing moved or the save was accepted and read back equal; an OSError or a mismatch fails the poll, any other fault makes the history unavailable, and both leave memory as it was |
| ChargingHistory.Coordinator.Update | custom_components/ecoflow_energy/charging_history.py:92-130 | memory is always the empty start or a ledger read from the store; a poll with rows ends as PublishRows says on the ledger restored or in memory, any other leaves it; an unread store is read again first and never written; no vehicle or order is lost; interval, failure and availability of every ending |
| ChargingHistory.Discovery.Discover | custom_components/ecoflow_energy/charging_history.py:214-226 | one entity per vehicle, added once |
| ChargingHistory.RunHistory | custom_components/ecoflow_energy/charging_history.py:202-234 | over any run of polls every entity has a value and every vehicle exactly one entity |
| ConfigEntries.Registry.UpdateAndReload | custom_components/ecoflow_energy/config_flow_setup.py:90-111 | exactly one reload, with or without a listener and whether or not anything changed |
| ConfigEntries.Registry.SetupLocal | custom_components/ecoflow_energy/config_flow_setup.py:435-485 | a Local entry is created exactly for a valid host, a readable device and a serial no entry lists |
| ConfigEntries.LocalVerdictIff | custom_components/ecoflow_energy/config_flow_setup.py:435-485 | a local step finishes exactly for a host without slash and space, the expected serial and a device no other entry lists; which error every other input gives |
| ConfigEntries.TitleRules | custom_components/ecoflow_energy/config_flow_setup.py:85-123 | a generated title shows four characters of the serial, and a title the owner chose is never touched |
| ConfigEntries.Registry.SetupCloud | custom_components/ecoflow_energy/config_flow_setup.py:548-595 | the outcome of every selection, in the order the step looks at it: no device, devices that do not fit the sign-in, an account already set up, a device in a Local entry; otherwise the entry is created |
| ConfigEntries.Registry.ReleaseLocalConnection | custom_components/ecoflow_energy/config_flow_reconfigure.py:113-139 | an unload is asked for exactly when the Local entry is set up or retrying and the valid address is another one |
| ConfigEntries.Registry.ReconfigureLocal | custom_components/ecoflow_energy/config_flow_reconfigure.py:141-218 | the outcome in the order the step decides it; the entry is rewritten only for its own serial, onto the given address; it is asked to unload exactly when it occupies another address, and every path that unloaded it schedules exactly one reload |
| ConfigEntries.Registry.SwitchToCloud | custom_components/ecoflow_energy/config_flow_setup.py:507-542 | the outcome of every account: not listing the device, not fitting it, known already, or the entry becomes a cloud entry of its one device; unique id and address go, one reload |
| ConfigEntries.Registry.CheckOptions | custom_components/ecoflow_energy/config_flow_options.py:113-255 | the outcome of every save, in the order the steps look at it: a Local entry, no device, a device in a Local entry, devices that do not fit the mode, an account or keys that are asked for and not complete |
| ConfigEntries.Registry.SaveOptions | custom_components/ecoflow_energy/config_flow_options.py:113-255 | the entry is rewritten exactly when nothing stands against the save, and reloads at most once |
| ConfigEntries.SavedIsConsistent | custom_components/ecoflow_energy/config_flow_options.py:467-511 | a save of free devices keeps all entries consistent |
| ConfigEntries.SelectionIsKept | custom_components/ecoflow_energy/config_flow_options.py:479-483 | a save keeps a device for every selected serial that is known, from the account's listing when that has it and from the entry otherwise, and no other device |
| ConfigEntries.PickInOrder | custom_components/ecoflow_energy/config_flow_setup.py:548-595 | the devices a new entry takes from the account keep their order |
| ConfigEntries.TypeOfSerial | custom_components/ecoflow_energy/config_flow_options.py:96-111 | the type of a selected serial is the table's for its last listing, and what was recorded there when the table knows none |
| ConfigEntries.EntrySignsIn | custom_components/ecoflow_energy/config_flow_setup.py:668-694 | a new cloud entry signs in with exactly what the steps collected, and after a credential update with the new credentials, nothing else changed |
| ConfigEntries.SavedSignsIn | custom_components/ecoflow_energy/config_flow_options.py:467-511 | a saved entry signs in with what was asked for, or with what it stored when nothing was asked; vehicle energy is on exactly in Enhanced, when wanted or when stored and not asked |
| ConfigEntries.SavedIsProper | custom_components/ecoflow_energy/config_flow_options.py:467-511 | a save never writes a cloud mode without the credentials it signs in with, nor half a pair of keys |
| ConfigEntries.Registry.UpdateCredentials | custom_components/ecoflow_energy/config_flow_reconfigure.py:220-353 | new credentials replace the ones the entry signs in with and nothing else |
| ConfigEntries.Registry.CheckCapture | custom_components/ecoflow_energy/__init__.py:84-113 | the capture runs exactly while its window is open; an expired one is switched off on the way |
| ConfigEntries.Registry.RunFlows | custom_components/ecoflow_energy/config_flow_setup.py:233-259 | over any sequence of completed flows a Local entry holds one device under its own serial, no credentials, and its serial is in no other entry; every cloud entry can sign in to its mode; the next reload after every unload is that entry's own |
| ConfigEntries.UniqueIdsAreUnique | custom_components/ecoflow_energy/config_flow_setup.py:233-259 | no two entries share a unique id |
| ConfigEntries.ThereAndBackIff | custom_components/ecoflow_energy/config_flow_reconfigure.py:194-210 | for every one-device cloud entry: the switch to Local and back gives the same entry exactly when the account lists the device as before, the entry stores nothing beyond what setup writes for this sign-in, and its title is not the generated Local one |
| ConfigEntries.ThereAndBackLoses | custom_components/ecoflow_energy/config_flow_setup.py:520-542 | an entry, reached by setup and one save, that loses its capture and its keys on the way |
| ConfigEntries.Registry.ThereAndBack | custom_components/ecoflow_energy/config_flow_setup.py:520-542 | the two flows, one after the other, write exactly that entry |
| CaptureWindow.WindowIsBounded | custom_components/ecoflow_energy/config_flow_options.py:513-531 | over any run on a clock that never goes back, an open window was opened by one save at most 24 hours ago and its deadline has stood since |
| CaptureWindow.DeadlineStands | custom_components/ecoflow_energy/config_flow_options.py:513-531 | until its deadline a window that nobody ends is open exactly to that deadline, whatever is saved meanwhile |
| CaptureWindow.StepOfWindow | custom_components/ecoflow_energy/__init__.py:84-137 | one event opens a full window, keeps the deadline or leaves no window |
| WriteGate.StateGate.WriteStateIfChanged | custom_components/ecoflow_energy/entity.py:257-271 | a write happens exactly when value or availability differs from the last one, and then both are remembered |
| WriteGate.NumberEntity.HandleCoordinatorUpdate | custom_components/ecoflow_energy/number.py:298-321 | lock, rollback, bounds and gate after one update |
| WriteGate.NumberEntity.ApplyOptimisticNumber | custom_components/ecoflow_energy/number.py:758-765 | data, lock and Home Assistant after a command |
| WriteGate.SwitchEntity.HandleCoordinatorUpdate | custom_components/ecoflow_energy/switch.py:592-607 | rollback, lock and gate of a switch after one update |
| WriteGate.SwitchEntity.ApplyOptimistic | custom_components/ecoflow_energy/switch.py:501-505 | a switch after a command |
| WriteGate.NumberReads | custom_components/ecoflow_energy/number.py:324-344 | what a number reads: the reported number, to the nearest whole one with halves to even on whole steps, nothing for a clear, what was restored for a missing key |
| WriteGate.RestoredIff | custom_components/ecoflow_energy/number.py:268-290 | what was stored comes back exactly where the device reports nothing and the range that holds takes it |
| WriteGate.SwitchReads | custom_components/ecoflow_energy/switch.py:308-316 | when a switch is on, off or unknown, for every kind of value |
| WriteGate.SwitchRestoredIff | custom_components/ecoflow_energy/switch.py:253-272 | what was stored comes back exactly where the device reports nothing |
| WriteGate.ReserveRange | custom_components/ecoflow_energy/ecoflow/delta3_commands.py:234-256 | the reserve of a Delta 3 ranges within 5 to 100, between the two battery limits as long as they leave room |
| WriteGate.FeedRange | custom_components/ecoflow_energy/number.py:533-541 | a feed-to-grid slot has derived bounds exactly when a whole feed limit above 100 W is known, which is then the ceiling |
| WriteGateProofs.EveryUpdateShowsTheTruth | custom_components/ecoflow_energy/number.py:298-344 | in every life of a number, over any run of updates and commands, an update outside the lock leaves Home Assistant showing value and availability as they are, exactly unless the number joined with a live value and only updates without a value followed |
| WriteGateProofs.UpdateShowsTheTruth | custom_components/ecoflow_energy/number.py:298-321 | from a settled gate an update outside the lock shows the current reading and leaves the gate settled |
| WriteGateProofs.StoredIsClean | custom_components/ecoflow_energy/number.py:268-290 | over any number of restarts the value restored is one the number can show |
| WriteGateProofs.AddedIsSettledIff | custom_components/ecoflow_energy/number.py:268-290 | a number joins with a settled gate exactly unless it is available with a live value |
| WriteGateProofs.LockKeepsTheRequest | custom_components/ecoflow_energy/number.py:300-309 | for five seconds the requested value stands against any reports until a rollback |
| WriteGateProofs.RollbackEndsTheLock | custom_components/ecoflow_energy/number.py:300-307 | after any command the update that sees a rollback ends the lock and shows the device's value |
| WriteGateProofs.EveryUpdateShowsTheSwitch | custom_components/ecoflow_energy/switch.py:279-316 | over any run from joining on every update leaves Home Assistant showing the switch's own state and availability, inside the lock too, exactly unless it joined with a live state and only updates without one followed |
| WriteGateProofs.ClearedNumberStrands | custom_components/ecoflow_energy/number.py:268-344 | the shortest run of the number's exception, on a schedule power |
| WriteGateProofs.ClearedSwitchStrands | custom_components/ecoflow_energy/switch.py:253-272 | the shortest run of the switch's exception |
| WriteGateProofs.SwitchKeepsTheRequest | custom_components/ecoflow_energy/switch.py:279-306 | for five seconds a switch shows the request with the availability of the moment |
| WriteGateProofs.Ocean2RollbackShowsTheDevice | custom_components/ecoflow_energy/switch.py:592-607 | a rollback on an Ocean 2 shows the device's value at once |
| WriteGateBounds.BoundsAreTheLastTold | custom_components/ecoflow_energy/number.py:310-321 | over any run of updates and commands the bounds shown are those that held for the data of the last write |
| WriteGateBounds.BoundsShownIff | custom_components/ecoflow_energy/number.py:298-321 | over any run, exactly when an update outside the lock leaves the bounds shown that hold: by whether the last write strayed from the remembered bounds and was followed by silence |
| WriteGateBounds.SteadyCommandsShowTheBounds | custom_components/ecoflow_energy/number.py:610-622 | with bounds always derived, over any run without a command sent while they differ from the remembered ones, every update outside the lock shows them |
| WriteGateBounds.CommandCanStrandBoundsIff | custom_components/ecoflow_energy/number.py:758-765 | a command can be followed by wrong bounds on display exactly when it is sent while the derived bounds differ from the remembered ones and its value reads back as requested |
| WriteGateBounds.Delta3CommandCanStrandIff | custom_components/ecoflow_energy/number.py:598-608 | on the Delta 3 reserve: exactly a whole percentage sent while the battery limits differ from those last seen |
| WriteGateBounds.ReturnedBoundsStrand | custom_components/ecoflow_energy/number.py:598-622 | a run of the Delta 3 reserve that ends with 25 to 100 on display where 15 to 100 holds |
| WriteGateBounds.LapsedBoundsStrand | custom_components/ecoflow_energy/number.py:538-541 | a run of a feed-to-grid slot that ends with the old ceiling on display where the declared range holds |
| Firmware.VersionRoundTrip | custom_components/ecoflow_energy/ecoflow/firmware.py:34-45 | the text of every packed revision parses back to it, and it is empty exactly outside 1 to 0xFFFFFFFF |
| Firmware.VersionKeyIff | custom_components/ecoflow_energy/ecoflow/firmware.py:25-31 | the six names, in any case, that mark a revision |
| Firmware.LeafEndsTheKey | custom_components/ecoflow_energy/ecoflow/firmware.py:30-30 | the name looked at is what follows the last dot of the key |
| Firmware.ExtractFirmwareVersions | custom_components/ecoflow_energy/ecoflow/firmware.py:48-63 | exactly the version-named keys with a packed revision, with raw value and a text that parses back to it |

## Left out

- Text beyond ASCII: white space and digits are ASCII; folding without case covers ASCII and the four other letters that fold into it; a string is a sequence of code points.
- Dictionary keys that are neither text nor plain leaves, and numbers inside the diagnostics tree, which the pass returns as they are.
- The sections that build the diagnostics tree, including the raw register listing; only the pass over the finished tree is modelled.
- Sockets, MQTT, HTTP, sign-in and device lists: their outcomes are arguments or arbitrary choices; pauses and timeouts have no duration.
- The block names, the scan time, the port and script version of the report, its summary lists (a selection of the readings), the text rendering and the command line.
- BlockRead.ReadBlock: takes 1 to 125 registers, as every plan does; other counts end in the exception that ModbusLink.Link.Read models as `BadCount`.
- Floats of the scan are 32-bit patterns, and plausibility compares their exact value.
- The peer of ModbusLink.Wire.SendAll sends at most one complete frame for each request; a peer that sends unasked frames could be taken for an answer.
- The probe's first connect, and a disconnect that raises, which the original logs and forgets; the client library's own locking is the one lock of the state machine.
- `datetime.fromisoformat` is a parameter, and SHA-256 an injective constructor.
- The type checks of a stored ledger are one case, `Malformed`; the stored fields themselves are typed.
- ChargingHistory.Discovery.Discover: does not model that vehicles found together are added in the order of their digests.
- The ledger index of an entry: its guarantee rests on index loads that succeed.
- That a server accepts only sign-ins without an empty part: the flows of the model are given such ones, as the options steps ask for themselves.
- Half-finished flows that interleave: a flow checks in one step and saves in another, and the model runs completed flows one at a time.
- Other fields of a listed device (online state, software version) and the entry's schema version with its migration.
- Two cloud entries may list one device or, through a credential update, carry one account, as in the original.
- The capture timer fires at the deadline stored in the entry; a timer of an entry that is just being unloaded is not modelled.
- The wallbox switches that read one bit of a report without a lock, entities without a gate of their own, and the device's own store behind the coordinator's data.
- NaN readings of a number and texts that happen to parse as a number.
- A definition whose step changes between two releases: a restored value would then be of the old step.
- The formulas that derive bounds, but for the Delta 3 reserve and the feed-to-grid slot: any function of the data stands for them.
