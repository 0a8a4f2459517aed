# Garden-valve firmware: verified model

A Dafny model of the parts of the ESP32 garden-valve firmware whose correctness is not
visible in any single function, with proofs over every input and every run.

- **Link layer** (`Crc16`, `CrcCode`, `CrcAlgebra`, `CrcDistance`, `Slip`, `Receiver`, `Parser`,
  `Link`, `LinkErrors`, `Overflow`): the table-driven CRC-16, the packet test, byte stuffing, the transmit buffer with its
  8-bit index and the byte-at-a-time receiver with its 500-byte buffer. The CRC has the
  parameters of section 6.2.2 of "MODBUS over Serial Line" V1.02; the framing uses
  START 0xC1, END 0xC2, ESC 0xC0.
- **Over-the-air update** (`Ota`, `OtaSafety`, `OtaSessions`, `OtaReplies`,
  `OtaDelivery`, `OtaAcks`, `OtaProgress`, `OtaAnswers`):
  `ReciveOTA` on `starting_ota`, `ota_task` and `OTA_End`. Each flash call takes its outcome from
  an oracle; a trace records flash calls, replies and the reboot. The bytes written in the
  current session are a function of that trace.
- **Valve scheduler** (`Valve`): `CheckIfTime` and `logic_loop` for two latching valves, three
  windows per weekday and the midnight flag both valves share.
- **Calendar and interpolation** (`Calendar`, `Interpolation`): `julian_day`, `limit_degrees` and
  `rts_alpha_delta_prime` over exact reals (sections 3.1.1 and A.2 of NREL/TP-560-34302).
- **Device search** (`DeviceSearch`): the match predicate of `RetuernMAC`.

Code that updates state is modelled by classes (`Slip.Transmitter`, `Receiver.Driver`,
`Ota.Device`, `Valve.Scheduler`) and loops (`Crc16.ComputeCrc`, `CrcCode.TestPacket`). Their
methods are proved equal to specification functions on values, and the theorems are about
those functions.

Findings where the code does less than one might expect, each with an input that shows it and
the condition under which the code does meet the expectation, exact except for wrong bits on
reserved bytes:

- A packet sent to an idle receiver arrives exactly if its frame is shorter than 256 bytes; a
  longer frame is clipped by the wrapped index and lost (`Link.ArrivesIffShort`,
  `Link.StreamArrives`; `Link.AllEscapesLost`).
- The receiver agrees with the declarative reading of the line exactly on the streams whose
  messages all decode to fewer than 500 bytes (`Parser.ReceiverRefinesParser`); the frame of any
  packet above 497 bytes is a stream on which it does not (`Link.FrameReadAlike`). A full buffer
  swallows the next byte, so a message of n plain bytes delivers its last n % 501, or nothing at
  all if these fill the buffer (`Overflow.LongMessage`).
- One wrong bit on the line is always rejected if it neither makes nor unmakes a START, END or
  ESC (`LinkErrors.OneWrongBitRejected`). One that turns an ESC into a START can make one packet
  arrive as another, accepted (`LinkErrors.OneWrongBitAccepted`).
- A valve whose window lasts to midnight is forgotten open. Both valves stay on schedule over
  all runs exactly if every window active at 23:59 is followed by one active at 0:00
  (`Valve.AllRunsIffSafe`; `Valve.MidnightLeavesValveOpen`).
- An acknowledgement is false exactly when it answers a duplicate that reaches past the
  accounted bytes (`OtaAcks.AckTruth`, `OtaAcks.TruthfulIff`; `OtaAcks.RecutDuplicateIsNotStored`).
- The working notes (`main/Note to do.txt`) ask for answer 6 when data arrives after a restart.
  The branch for it (main/protocol.c:511-516) cannot be reached, because the position compared
  is non-zero and unsigned. After a reboot the answer is 5 until position 0 comes
  (`OtaSafety.AfterRebootOnlyHoles`); a 6 is only ever sent with the whole image held
  (`OtaSafety.UpdateSafe`).
- If `esp_ota_end` fails, the end is not retried: a run of slices then gets answers and nothing
  else, exactly if none of them restarts from position 0 (`OtaAcks.FailedEndIsNotRetried`;
  `OtaAcks.FailedEndReached`).
- A write or an end goes to a session already ended exactly if a message continues past it,
  which no slice of the image does (`OtaSessions.OrderlyIff`, `OtaSessions.NoCallOnEndedSession`;
  `OtaSessions.SecondEnd`).
- A first chunk that is too short for the image headers is refused with 4, but only after it has
  thrown away the session in progress; from then on the device answers holes until position 0
  comes again (`OtaAnswers.TooShortResets`, `OtaAnswers.TooShortThenHoles`).
- The time of day is added linearly on all dates but for the last hours of the Julian calendar,
  where ten days are lost (`Calendar.TimeOfDay`; `Calendar.AfternoonBeforeReform`).
- A right-ascension step of a degree or more across the 360-degree wrap loses a whole degree
  (`Interpolation.WrappedInterpolationIff`; `Interpolation.LongStepOverWrap`).

Lemmas on fixed values anchor the definitions: the worked example of the MODBUS specification
(`Crc16.WorkedExample`) and its frame on the line (`Slip.FrameExample`), and the epochs of
`julian_day` (`Calendar.Epochs`).

Run `dafny verify dfyconfig.toml` to check the project.

## Model

| member | source | states |
|---|---|---|
| Crc16.ComputeCrc | main/protocol.c:46-94 | the table-driven loop computes, for every data and start value, what the bit-serial 0xA001 shift register computes |
| Crc16.TableIsShift | main/protocol.c:48-81 | each of the 256 table entries is its index shifted eight times through the register |
| Crc16.TableStep | main/protocol.c:86-92 | one look-up round equals feeding the byte's eight bits, least significant first |
| Crc16.CrcAppend | main/protocol.c:46-94 | the checksum of a concatenation continues from the checksum of its first part |
| CrcAlgebra.CrcLinear | main/protocol.c:83-94 | xoring two inputs of equal length, and their start values, xors their checksums |
| CrcAlgebra.OrderOfX | main/protocol.c:48-81 | x^n is 1 modulo the polynomial exactly when 32767 divides n |
| CrcCode.TestPacket | main/protocol.c:99-122 | returns 0 below four bytes, 2 on a checksum mismatch, 1 otherwise |
| CrcCode.Residue | main/protocol.c:99-122 | from four bytes on, a packet is accepted if and only if the checksum over all of it, trailer included, is 0 |
| CrcCode.AcceptedIsSealed | main/protocol.c:110-118 | a buffer is accepted if and only if it is its own body followed by that body's checksum, low byte first |
| CrcCode.VerdictMeaning | main/protocol.c:99-122 | the verdict is 0 exactly below four bytes, 2 exactly for four bytes or more that are not a body with its checksum |
| CrcDistance.MinimumDistance | main/protocol.c:46-122 | two different accepted packets of equal length, up to 4095 bytes, differ in at least four bits |
| CrcDistance.FewErrorsRejected | main/protocol.c:46-122 | a sealed packet with one to three bits changed is never accepted |
| CrcDistance.TwoErrorsExactly | main/protocol.c:83-94 | a two-bit error goes unnoticed if and only if the bits are a multiple of 32767 apart |
| CrcDistance.BurstDetection | main/protocol.c:83-118 | two accepted packets that agree outside some 16 consecutive bits are equal |
| Slip.Transmitter.SendChar | main/drv_rs485.c:54-58 | appends to the queue at an index that wraps after 256 characters |
| Slip.Transmitter.SendSlipChar | main/protocol.c:125-143 | queues the byte, or ESC and its offset from ESC for the three reserved values |
| Slip.Transmitter.SendData | main/drv_rs485.c:72-90 | hands the UART what the wrapped index leaves of the queue and empties it |
| Slip.Transmitter.SendPacket | main/protocol.c:146-165 | transmits START, the escaped packet and checksum, END, clipped by the index, and leaves the queue empty |
| Slip.IntactIffShort | main/drv_rs485.c:31-58 | a frame leaves unclipped if and only if it has at most 255 bytes |
| Slip.ShortPacketsIntact | main/protocol.c:146-165 | packets of up to 124 bytes always leave unclipped |
| Slip.EscapeHasNoMarker | main/protocol.c:125-143 | between START and END no START or END byte occurs |
| Slip.ReservedEscapes | main/protocol.c:125-143 | 0xC0, 0xC1 and 0xC2 go out as 0xC0 followed by 0, 1 and 2 |
| Slip.FrameOnLine | main/protocol.c:146-165 | every packet goes out as 0xC1, then bytes none of which is 0xC1 or 0xC2 and in which 0xC0 is always followed by 0, 1 or 2, then 0xC2 |
| Slip.FrameExample | main/protocol.c:146-165 | the packet 02 07 goes out as C1 02 07 41 12 C2 |
| Slip.LapsLost | main/drv_rs485.c:54-90 | what is lost of a long frame is a whole number of 256-byte laps from its front |
| Receiver.Driver.SerialEvent | main/drv_rs485.c:115-163 | one byte changes buffer, position, flags and delivered messages as the receiver automaton does |
| Receiver.Driver.Receive | main/drv_rs485.c:171-185 | a block of bytes is the automaton run over them in order |
| Receiver.AfterReachable | main/drv_rs485.c:115-163 | always: at most 500 bytes, a full buffer is receiving and not escaping, an idle one is empty |
| Receiver.StaleEscapeHarmless | main/drv_rs485.c:123-142 | an escape flag set outside a message, or left by an END, changes nothing that is delivered on any stream |
| Parser.ReceiverRefinesParser | main/drv_rs485.c:118-162 | the delivered messages are the unescaped segments between each END and the START before it without a marker between, if and only if all of these are shorter than 500 bytes |
| Parser.UnescapeEscape | main/protocol.c:125-143 | unescaping undoes escaping |
| Parser.UnescapeSnoc | main/drv_rs485.c:140-155 | how one more byte extends a decoded segment: ESC runs collapse, an escaped byte is offset by ESC modulo 256 |
| Parser.DeliveredShort | main/drv_rs485.c:118-134 | no delivered message reaches 500 bytes |
| Overflow.FullBufferSwallows | main/drv_rs485.c:159-162 | from every reachable state with 500 bytes any byte is swallowed: reception goes on from position 0 and nothing is delivered |
| Overflow.LongMessage | main/drv_rs485.c:118-162 | from every reachable state a message of n plain bytes delivers its last n % 501 bytes, or nothing, reception left on, if these fill the buffer |
| Link.FrameDelivers | main/drv_rs485.c:115-163 | from every reachable state a frame delivers exactly its sealed packet and leaves the receiver idle |
| Link.MarkerBytes | main/drv_rs485.c:118-134 | in every reachable state 0xC1 alone starts reception and 0xC2 alone delivers |
| Link.Resynchronises | main/drv_rs485.c:115-163 | after any garbage a frame gets through if and only if its packet has at most 497 bytes |
| Link.RoundTrip | main/protocol.c:99-165 | after any garbage a packet of 2 to 497 bytes arrives once, accepted and unchanged |
| Link.FrameIsOneMessage | main/protocol.c:146-165 | by the declarative reading every frame is one message, its sealed packet |
| Link.FrameReadAlike | main/drv_rs485.c:115-163 | the receiver reads a frame that way if and only if its packet has at most 497 bytes |
| LinkErrors.OneWrongBitRejected | main/drv_rs485.c:115-163 | from every reachable state a frame with one wrong bit that leaves reserved bytes alone delivers one message of the right length, which is not accepted |
| LinkErrors.OneWrongBitAccepted | main/drv_rs485.c:123-142 | for a family of packets one bit that makes a START of an ESC delivers another packet, accepted |
| Link.ArrivesIffShort | main/drv_rs485.c:31-163 | from transmitter to idle receiver a packet arrives if and only if its frame is shorter than 256 bytes |
| Link.AllEscapesLost | main/drv_rs485.c:31-90 | a packet of 126 bytes that all need escaping is lost |
| Link.SendAll | main/protocol.c:146-165 | sending a list of packets through the transmitter puts their clipped frames on the wire in order |
| Link.StreamArrives | main/drv_rs485.c:54-163 | for any list of packets an idle receiver gets exactly those whose frames are shorter than 256 bytes, in order |
| Link.StreamConserved | main/drv_rs485.c:54-163 | for packets of two bytes or more with such frames the wire carries the concatenated frames, and from every reachable state the receiver recovers all packets in order, accepted |
| Ota.Device.ReciveOta | main/protocol.c:483-637 | one message changes the globals and adds flash calls and replies as the specification step does |
| Ota.Device.StartingOta | main/OTA.c:54-82 | resets header flag and length and never fails |
| Ota.Device.OtaTask | main/OTA.c:85-171 | header check, begin on the first chunk, write; results 3, 4, 5 and 0 |
| Ota.Device.OtaEnd | main/OTA.c:174-209 | ends, sets the boot partition and reboots; results 1 and 2 on failure |
| OtaSafety.NoCallBeforeBegin | main/OTA.c:96-209 | in every run, with any messages and flash failures, each write and each end follows a successful begin in the same session |
| OtaSessions.OrderlyIff | main/OTA.c:148-191 | in every run each write and each end is made on a session begun and not ended since, if and only if no message continues where an ended session stands |
| OtaSessions.NoCallOnEndedSession | main/OTA.c:148-191 | on slices of one image this always holds |
| OtaSessions.SecondEnd | main/protocol.c:566-604 | a byte beyond the image after a failed end is written and the session ended a second time |
| OtaSafety.UpdateSafe | main/protocol.c:509-636 | in every run on lost, repeated or reordered slices of one image with failing flash calls, the session holds exactly the accounted prefix of the image, and the update is ended, and answered 6, only when that is all of it |
| OtaSafety.AfterRebootOnlyHoles | main/protocol.c:509-530 | after a reboot every run without position 0 answers 5 to each message that carries data and changes nothing else |
| OtaReplies.ErrorMeansFailure | main/protocol.c:548-624 | a message is answered 4 if and only if a flash call made for it failed or it is a first chunk within the image headers |
| OtaAnswers.TooShortResets | main/protocol.c:543-616 | from every state a non-empty first chunk within the image headers resets all globals and is answered 4 |
| OtaAnswers.TooShortThenHoles | main/protocol.c:509-616 | any run without position 0 that follows is answered with holes only |
| OtaAnswers.RestartAnswer | main/protocol.c:543-629 | from every state each non-empty message at position 0 starts a session first, then has exactly the flash calls, reply and globals stated |
| OtaAnswers.RepeatAnswer | main/protocol.c:509-522 | at or below the last position a message is answered 1 and changes nothing else |
| OtaAnswers.HoleAnswer | main/protocol.c:524-529 | above it, but not where the next chunk is expected in 32 bits, it is answered 5 with the last position and changes nothing else |
| OtaAnswers.MiddleAnswer | main/protocol.c:605-629 | where it is expected, below the program length, it is written and answered 1, or 4 if the write fails with no global changed |
| OtaAnswers.LastAnswer | main/protocol.c:560-604 | where it is expected, reaching the program length, it is written, answered 6 and ended; a failed end or boot partition adds 4, success reboots |
| OtaAnswers.RunInRange | main/protocol.c:483-637 | every run from boot stays in the states for which these answers are stated |
| OtaAnswers.TaskResult | main/OTA.c:85-171 | result 4 exactly if nothing was done, 3 exactly if the begin failed, 5 exactly if the write failed, 0 exactly if it was written |
| OtaAnswers.EndResult | main/OTA.c:174-209 | result 1 exactly if the end failed, 2 exactly if the boot partition did; otherwise the device restarts as at boot |
| OtaAnswers.Int32Wraps | main/OTA.c:54-171 | the file length stays in 32 bits, differing from the sum by a multiple of 2^32 |
| OtaDelivery.AcknowledgedMeansStored | main/protocol.c:509-629 | with one partition for all messages, every reply 1 or 6 names a chunk whose bytes were then in the session |
| OtaDelivery.AcknowledgedFromBoot | main/protocol.c:509-629 | in particular in every run from boot |
| OtaAcks.DuplicateAnswer | main/protocol.c:509-522 | a duplicate is always answered 1, truly if and only if its slice does not reach past the accounted bytes |
| OtaAcks.AckTruth | main/protocol.c:509-629 | for any slice of the image, every reply 1 or 6 sent for it names its position and bytes held at that moment, if and only if it is not a duplicate reaching past the accounted bytes |
| OtaAcks.TruthfulIff | main/protocol.c:509-629 | over every run on slices of one image with failing flash calls, all acknowledgements are true if and only if no such duplicate arrives |
| OtaAcks.RecutDuplicateIsNotStored | main/protocol.c:509-522 | a sender that cuts the image anew produces such a duplicate and a false acknowledgement |
| OtaAcks.FailedEndIsNotRetried | main/protocol.c:509-529 | once the whole image is held, a run of slices changes no global, makes no flash call and only answers 1 and 5, if and only if no slice restarts from position 0 |
| OtaAcks.FailedEndReached | main/protocol.c:583-602 | such a state is reached when `esp_ota_end` fails: the last reply is 4, and the resent last chunk is answered 1 |
| OtaProgress.UpdateCompletes | main/protocol.c:495-636 | from any state, starting with chunk 0, any order of chunk copies and empty messages, with any flash calls failing, completes the update with the whole image written as soon as the last chunk is written and ended after all others; every copy is answered as stated, errors, holes and a failed end included |
| Valve.Scheduler.CheckIfTime | main/dev_logic.c:181-294 | one call changes one valve, its pulses and the shared flag as the specification step does, and leaves the other valve alone |
| Valve.Scheduler.LogicLoop | main/dev_logic.c:297-308 | one pass checks valve 0, then valve 1 with the flag valve 0 left |
| Valve.CallOutcome | main/dev_logic.c:199-290 | one call: from closed, or forgotten, the least active window opens the valve; one still active is kept; from one that ended the valve is closed and reopened for the least active window after it; the pulses are exactly these |
| Valve.FlagAfter | main/dev_logic.c:199-211 | the shared flag is set after a call exactly if the minute is 0 and it was set before or the valve was in a window |
| Valve.OneResetPerMidnight | main/dev_logic.c:199-308 | over any run within minute 0 at most one of the two valves is reset, once, and none if the flag was set |
| Valve.LeftResetFirst | main/dev_logic.c:297-308 | of two open valves the first is reset, and the second keeps its active window |
| Valve.OneWindowDay | main/dev_logic.c:213-290 | with one window a day and a call each minute the relay gets one open pulse in its first minute and one close pulse in the minute after its last |
| Valve.SyncedUnlessForgotten | main/dev_logic.c:199-290 | a call keeps relay and `timeselect` in step if and only if it does not forget an open window at minute 0 with no window active |
| Valve.MidnightLeavesValveOpen | main/dev_logic.c:199-206 | with a daily window from 23:00 to midnight, every run that opens at 23:59 leaves the valve open, in no window, all through the next day until 23:00 |
| Valve.Converges | main/dev_logic.c:213-290 | two calls in any minute but 0 open the valve exactly if some window is active; a further call changes nothing |
| Valve.StableUnlessForgotten | main/dev_logic.c:199-290 | a settled valve is disturbed by one more call if and only if that call is the midnight reset |
| Valve.CallKeepsSchedule | main/dev_logic.c:181-294 | a call within a minute of the last keeps the valve on schedule, whatever the shared flag, in a week that is safe overnight |
| Valve.OnScheduleIffSafe | main/dev_logic.c:181-294 | calls in time always keep valves on schedule if and only if every window active at 23:59 is followed by one active at 0:00 |
| Valve.AllRunsIffSafe | main/dev_logic.c:181-308 | from closed valves, all runs of both valves that miss no minute stay on schedule if and only if both weeks meet that condition |
| Valve.EndingEarlyIsSafe | main/dev_logic.c:199-290 | weeks whose windows all end by minute 1439 meet that condition |
| Valve.AlwaysOnSchedule | main/dev_logic.c:181-308 | over every run that misses no minute, after each pass the last pulse of each valve is open exactly if `timeselect` is non-zero, and then the current minute lies in that window |
| Valve.OpenExactlyInWindows | main/dev_logic.c:181-294 | with two calls a minute each valve is open exactly while some window of today is active |
| Calendar.NextDayIsOneMore | main/spa.c:633-652 | the next calendar day has the next Julian day, across months, leap days, century years and October 1582 |
| Calendar.DifferenceCountsDays | main/spa.c:633-652 | two Julian days differ by n if and only if the dates are n days apart |
| Calendar.OrdersDates | main/spa.c:633-652 | Julian days order valid dates as the calendar does, and no two dates share one |
| Calendar.TimeOfDay | main/spa.c:633-652 | every result is the value at midnight plus the seconds of universal time, the time zone taken off, over 86400; less ten days exactly past noon of 4 October 1582, counted from that date or from the day before |
| Calendar.Epochs | main/spa.c:633-652 | noon of 1 January 4713 BC is 0, noon of 1 January 2000 is 2451545, and in the device's time zone a twelfth of a day less |
| Calendar.AfternoonBeforeReform | main/spa.c:646-649 | 18:00 on 4 October 1582 comes out ten days early |
| Calendar.YearDays | main/spa.c:533-536 | truncating 365.25 times the shifted year counts leap days exactly |
| Interpolation.LimitDegreesReduces | main/spa.c:538-547 | the result lies in [0, 360) and differs by whole turns |
| Interpolation.WrappedInterpolation | main/spa.c:986-995 | for daily steps in [0, 1) interpolating reduced right ascensions gives the parabola through the unreduced ones, up to whole turns |
| Interpolation.WrappedMeetsSamples | main/spa.c:986-995 | ... and so meets all three days' right ascensions |
| Interpolation.WrappedInterpolationIff | main/spa.c:986-995 | for steps in [0, 2) each neighbouring sample is met if and only if the step to it is below 1 or does not cross the wrap |
| Interpolation.QuadraticUnique | main/spa.c:994-994 | the formula is the only quadratic polynomial through the three samples |
| Interpolation.SmallStepsExact | main/spa.c:986-995 | values taken unreduced are met at all three samples if and only if both steps are smaller than 2, and then interpolated by their parabola |
| Interpolation.MissedByWholeDegrees | main/spa.c:986-995 | a sample beyond such a step is missed by a whole number of degrees |
| DeviceSearch.OneMoreBit | main/protocol.c:384-404 | one more bit splits the answering devices into two disjoint halves |
| DeviceSearch.LastBitIdentifies | main/protocol.c:384-404 | at index 47 only the device with that MAC answers |
| DeviceSearch.NobodyAnswers | main/protocol.c:384-404 | a value with a bit above the index is answered by no device |
| DeviceSearch.DiscoverFinds | main/protocol.c:384-404 | following only queries that are answered finds exactly the devices below a query |
| DeviceSearch.SearchComplete | main/protocol.c:384-404 | the walk from the first bit finds every device, in one half only |
| DeviceSearch.BranchesDisjoint | main/protocol.c:384-404 | no device is found on two branches of the walk |

## Left out

- UART, GPIO, ADC, FreeRTOS, Wi-Fi, NVS and the web page: input and output; what remains is the byte handed over, the relay pulse and the outcome of a flash call.
- ESP-IDF internals, version comparison and `OTA_init`: library behaviour. The image header size (24 + 8 + 256 bytes) is ESP-IDF's, and a failed `esp_ota_write` is taken to append nothing.
- Message layout: update messages are records with at most 400 data bytes; the packed structs, out-of-range lengths and the OS name are not part of this model.
- Reply packets of `SendStatus`, `ReadParms`, `SET_IO_VAL`, `SendParms` and the rest of `RetuernMAC`: field copying.
- Server-controlled I/O (`io_dig_mode` 1): pulses are suppressed then, so the relay no longer follows the scheduler.
- Changing the hours while the scheduler runs: each run has one week of windows per valve.
- Valve.AlwaysOnSchedule: the state restored from flash at start-up is taken to be on schedule, since the position of a latching relay after power-up is not known to the firmware.
- DeviceSearch.Discover: the walk is the one the query allows; the master that issues queries is not in the repository. Indices above 47 are left out, as the upper two bytes of the 64-bit MAC variable, of which six are filled (main/protocol.c:386-387), are then compared uninitialised.
- The rest of the solar position algorithm (trigonometry, periodic terms) and floating-point rounding: `Calendar` and `Interpolation` use exact reals.
- OtaProgress.UpdateCompletes: while the state of the device is unknown only chunk 0 and empty messages are sent, since other chunks would fit into whatever transfer went on before.
- Calendar.NextDayIsOneMore: years before -4715 are left out; the source admits -2000 to 6000.
- `approx_sun_rise_and_set`, `VoltageErrorCheck`, `uintToStr`, the pulse interrupt and commented-out motor code: would add only easy members, or are inactive.
