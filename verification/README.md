# S.M.A.R.T. monitor: a verified model

A service reads the S.M.A.R.T. attributes of a drive, estimates what one tick of a raw value is worth, and
broadcasts the values to its clients; the clients decode them and show them in real units. This project models
that pipeline in Dafny, part by part, and proves what the parts promise each other. `dafny verify dfyconfig.toml`
checks all of it.

| module | part of the system |
|---|---|
| `MachineWords` | `uint64_t`, and a signed `long int` of 4 or of 8 bytes (`TopBit` is the weight of its top bit) |
| `UnitEstimator`, `EstimatorHistory`, `IdealCounter` | the unit estimator: one attribute's slot, its state after any run, all runs from an ideal counter |
| `IdLists` | zero-terminated ID lists, the cursor over them, and what callbacks do |
| `SmartUniqueID`, `SmartAccess`, `ValuesMessage` | the objects whose arrays these parts update in place |
| `LockFreeWords`, `ChecksumProtocol`, `SmartAttr` | 64-bit values shared by two threads without a lock, guarded by an XOR check sum |
| `Framing`, `ServiceProtocol`, `SocketEnds` | length framing, accept and broadcast steps, the two ends of a socket |
| `CStrings`, `Decimal`, `UnitCodec`, `IdListText`, `TimeFormat`, `RealValue` | texts: strings in arrays, numbers, units, ID lists, times, unit strings |
| `DriveIdentity` | the order of drives |

Objects and loops of the source are classes and methods here, each proved against a function on values; the lemmas
about runs, schedules and round trips are about those functions.

## What turned out

Some promises hold only under a condition. Each is proved as an equivalence, with an input for the other side.

- A unit marked "greater than" is below the real unit on every run, in every state, exactly when two readings are
  never more than 2^31 (2^63) of the metric apart, or the unit is that large (`MarkerExactly`). On the first increase
  the interval is stored unmarked, and its own top bit reads as the marker. On a 4-byte build 25 days of uptime or
  2 GiB written between two readings suffice.
- Unit and bounds are within min(s, U) of the real unit U, s being the gap between readings, exactly when
  U + min(s, U) fits below the top bit or no two increases can be seen (`AccuracyExactly`); under the same condition
  the error of a single estimate shrinks with the raw difference (`EstimateError`). Between the first two increases
  the lower bound is the longest stretch without an increase exactly when U - 1 + s fits (`LowerBoundExactly`).
- Over all schedules of any number of writes, a reader never accepts a mix of written raw values exactly when no high
  long of one value and low long of the same or a later one, which is no such mix, fits the check sum of a later one
  (`ManyWritesExactly`, `TwoWritesTear`); with the sum compared at any time there are more check sums to fit. For a
  single write this is: one of the longs stays the same, or the old high long is neither 0 nor the new low long
  (`RawExactly`). The comment in the source gives a pair that violates it as its example of what the check sum detects
  (`CommentedExampleTears`). Values that agree in their high long, all those below 2^32 for instance, are always safe
  (`SameHighNeverTears`). If the sum is compared between two writes, one overlapping write never tears a value
  (`RawReadIsWhole`).
- The same for retrieval times (`ManyTimesExactly`, `SameHighTimesNeverTear`). `GetRetrievalTime` names the low long
  twice. Loaded once for both, a time that at most one write overlaps is whole if the sum is compared between two
  writes; loaded twice, it need not be (`TimeReadIsWhole`, `TimeExactly`). Two overlapping writes can tear it in
  either case (`TwoTimesTear`).
- A client that collects the attributes it received gets the service's list exactly when every raw value in it was
  found consistent and the last ID is not in it: the loop ends one short (`ClientDiscoversReadList`). Attribute 254, "Free Fall Protection", is received and never listed
  (`LastAttributeIsNotListed`).
- A message arrives as it was sent exactly when its length is 1 to 65533 (`FrameExactly`), and a client stays in step
  exactly when one ID message was written to it and the lengths of all broadcasts are 1 to 65533 (`InStepExactly`).
  The service sends an ID message for each drive with supported IDs.
- In an ID list, a field that is no number or out of range becomes a 0, which ends the list there (`FieldsConverted`).
- A unit of 0 is not sent, so the client keeps the unit it had (`UnitRoundTrip`).
- The real value is raw times the coefficient of the unit text exactly when every number that counts in the text is
  below 2^64 (`ResultExactly`, `TooManyHours`), and the coefficient is the meant one exactly when every such number has
  a single unit letter (`MeantExactly`); the shipped configuration has "1GB", which counts twice, and "32MiB", which is
  an error.

## Readings of the source

- `guessUnit` and the marker macros are modelled for both sizes of `long int`; a conversion that does not fit wraps
  around in two's complement, and so does the subtraction of the bounds.
- The lock-free values are modelled for a 4-byte `long int`, where a value takes two longs. Every load and store of a
  long is one step. The XOR of a long into the sum in memory counts as one step too, since only the writer changes
  the sum. `IsConsistent` counts an unsigned index down past 0; the loop over the longs 1 and 0 is meant. In
  `GetRetrievalTime` an exchange stands inside the header of the loop; it is the copy of the low long, made before
  the loop over the higher longs.
- The range check of attribute IDs lets N + 1 pass, while the arrays end at N; an element with that ID is excluded by a
  precondition. Elements with other IDs out of range are ignored, as in the source.
- N, the number of attribute IDs, is any number from 1 on; the number of IDs a `SMARTuniqueID` copies is N.
- `getRealValue` keeps the numbers of a unit text in `uint64_t`. Its only call passes unbounded integers
  (`boost::multiprecision::cpp_int`) for raw value and result; without these the call does not compile.
- Raw values that are sent are below 2^63. The service reads 8 bytes where a drive has 6, and the client parses a signed
  64-bit number; what becomes of a larger one is up to the library.
- A write to a socket sends everything or fails. A file descriptor is not given out again while it is in use, and
  the service never closes those of broken connections.
- `ConvertCharStringToTypename` is not part of this model; a field of an ID list is taken to be read up to its first
  character that is no decimal digit, and to be no number if it starts with one.
- The array of supported IDs a client fills, and the list to read at the service, are used as far as their callers
  leave room in them; texts and lists that would run over the arrays are excluded by preconditions.

## Model

| member | source | states |
|---|---|---|
| `SmartUniqueID.SMARTuniqueID.constructor` | src/attributes/SMARTuniqueID.hpp:157-173 | both ID lists are empty and every attribute's slot is the initial one |
| `SmartUniqueID.SMARTuniqueID.GuessUnit` | src/attributes/SMARTuniqueID.hpp:314-510 | one reading takes the slot of its attribute to the specified next slot and leaves every other attribute's slot as it was |
| `UnitEstimator.StepKeepsAnchor` | src/attributes/SMARTuniqueID.hpp:330-510 | one reading advances the state by at most one and never back, leaves the anchor alone after the first increase, and only widens the bounds |
| `UnitEstimator.RunNeverGoesBack` | src/attributes/SMARTuniqueID.hpp:330-510 | over any run the state never goes back, the anchor pair is frozen from the first increase on, and in the last state the interval only widens |
| `UnitEstimator.RunKeepsExtremes` | src/attributes/SMARTuniqueID.hpp:358-500 | over any run the last state is reached exactly with the first accepted estimate, the raw differences of accepted estimates strictly rise, and the bounds are exactly their minimum and maximum, the unit the midpoint of these and the last estimate kept from the second one on |
| `UnitEstimator.AcceptedStep` | src/attributes/SMARTuniqueID.hpp:358-500 | what accepting an estimate leaves in bounds, unit and record-high difference |
| `UnitEstimator.RejectedStep` | src/attributes/SMARTuniqueID.hpp:398-403 | readings that are no record high change nothing in the last state |
| `UnitEstimator.MidpointIsExact` | src/attributes/SMARTuniqueID.hpp:492-497 | the overflow-avoiding midpoint is the mathematical one exactly when the distance of the bounds fits a long, which it always does for nonnegative bounds |
| `EstimatorHistory.BeforeFirstIncrease` | src/attributes/SMARTuniqueID.hpp:332-357 | the whole slot after any readings without an increase: the first reading with the lowest metric is the anchor, the unit is the marked distance from it, there are no bounds |
| `EstimatorHistory.FirstIncrease` | src/attributes/SMARTuniqueID.hpp:339-349 | the whole slot at the first increase: the distance from the anchor, unmarked, is unit and lower bound, and the reading is the new anchor |
| `EstimatorHistory.BetweenIncreases` | src/attributes/SMARTuniqueID.hpp:382-394 | the whole slot up to the second increase, for any further readings: the last distance, marked, is the unit, the greatest the lower bound, and there is no upper bound |
| `EstimatorHistory.SecondIncrease` | src/attributes/SMARTuniqueID.hpp:358-381 | the whole slot at the second increase: distance divided by raw difference is unit and bounds |
| `MachineWords.MarkedLong` | src/attributes/SMARTuniqueID.hpp:41-44 | setting the marker keeps the value under it, for every long |
| `MachineWords.WrapsAround` | src/attributes/SMARTuniqueID.hpp:341-372 | differences and longs agree with the unbounded values up to wrap-around |
| `IdealCounter.EveryRunTracks` | src/attributes/SMARTuniqueID.hpp:330-510 | on every run from an ideal counter the anchor lies less than min(gap, U) past an increase, and the raw difference counts the increases since |
| `IdealCounter.LowerBoundExactly` | src/attributes/SMARTuniqueID.hpp:344-386 | on every run the lower bound between the first two increases is the longest stretch without an increase that was seen, if and only if U - 1 + s fits a long, or there is no gap and so no increase |
| `IdealCounter.LowerBoundWhileWaiting` | src/attributes/SMARTuniqueID.hpp:344-386 | while U - 1 + s fits a long, that lower bound, which then is at most U - 1 + s |
| `IdealCounter.UnitWhileWaiting` | src/attributes/SMARTuniqueID.hpp:332-394 | on every run from an ideal counter: the marked distance from the first reading, the same unmarked at the first increase, then the marked distance from the increase, and no upper bound before the second increase |
| `IdealCounter.WrappedStretchRun` | src/attributes/SMARTuniqueID.hpp:350-356 | a run for every other U and gap on which it is not |
| `IdealCounter.MarkerExactly` | src/attributes/SMARTuniqueID.hpp:330-509 | in every state the ">" marker is sound on every run from an ideal counter if and only if the gap between readings is at most 2^31 (2^63), or U at least that |
| `IdealCounter.TrackedMarker` | src/attributes/SMARTuniqueID.hpp:339-392 | under that condition every marked unit before the second increase is strictly below U |
| `IdealCounter.EstimatesInWindow` | src/attributes/SMARTuniqueID.hpp:358-500 | all estimates accepted in a run lie in one window of length min(s, U) around U, up to wrap-around |
| `IdealCounter.DeterminedMarker` | src/attributes/SMARTuniqueID.hpp:487-500 | under that condition a unit calculated as a midpoint that reads as marked is strictly below U, too |
| `IdealCounter.FalselyMarkedRun` | src/attributes/SMARTuniqueID.hpp:339-345 | a run for every other U and gap on which a marked unit is not below U |
| `IdealCounter.EstimateError` | src/attributes/SMARTuniqueID.hpp:402-426 | on every run each estimate accepted at raw difference k is off by less than min(s, U) / k + 1, if and only if U + min(s, U) fits a long, or no run can see two increases |
| `IdealCounter.AccuracyExactly` | src/attributes/SMARTuniqueID.hpp:330-510 | unit and bounds are strictly within min(s, U) of U on every run if and only if U + min(s, U) fits a long, or no run can see two increases |
| `IdealCounter.InaccurateRun` | src/attributes/SMARTuniqueID.hpp:358-381 | a run for every other U and gap that ends with inaccurate bounds |
| `SmartUniqueID.SMARTuniqueID.SetSupportedIDs` | src/attributes/SMARTuniqueID.hpp:199-210 | all supported IDs, which read back up to the 0 behind them, or the first ones that fill the array; the rest of the array untouched |
| `SmartUniqueID.SMARTuniqueID.SetIDsToRead` | src/attributes/SMARTuniqueID.hpp:215-273 | the array reads as the intersection; as all supported IDs for an empty request; and stays as it was if these do not fit |
| `SmartUniqueID.SMARTuniqueID.CopyAllSupported` | src/attributes/SMARTuniqueID.hpp:222-236 | all supported IDs, followed by 0 where there is room |
| `SmartUniqueID.SMARTuniqueID.SkipBelow` | src/attributes/SMARTuniqueID.hpp:252-268 | the inner loop finds a supported ID in the request exactly if it is there, passing only smaller ones, within the array |
| `SmartUniqueID.SMARTuniqueID.WriteCommon` | src/attributes/SMARTuniqueID.hpp:240-269 | the nested loop writes the intersection to the front, in bounds, and nothing else |
| `SmartUniqueID.SMARTuniqueID.Intersect` | src/attributes/SMARTuniqueID.hpp:239-272 | the array holds the intersection and a 0, which always fits |
| `IdLists.IntersectionIsExact` | src/attributes/SMARTuniqueID.hpp:212-219 | the list to read is ascending and holds exactly the IDs that are supported and requested |
| `IdLists.AscendingUnique` | src/attributes/SMARTuniqueID.hpp:95-98 | only one ascending list has given elements |
| `SmartUniqueID.SMARTuniqueID.CopyArr` | src/attributes/SMARTuniqueID.cpp:100-111 | the copy reads the same up to its 0, also where the original has none |
| `SmartAccess.AttrHelper.constructor` | src/libATA_SMART/SMARTaccess.hpp:25-32 | a helper starts with its cursor at the list's front |
| `SmartAccess.AttrHelper.Callback` | src/libATA_SMART/SMARTaccess.cpp:72-152 | one callback moves the cursor, and sets flag and raw value, as specified, and stays inside the list |
| `SmartAccess.AttrHelper.ReadAttributes` | src/libATA_SMART/SMARTaccess.cpp:154-176 | all callbacks of a drive, one after the other |
| `IdLists.CursorFollowsHighest` | src/libATA_SMART/SMARTaccess.cpp:94-100 | after callbacks in any order the cursor has passed exactly the listed IDs below the highest reported one |
| `IdLists.CallbacksInAnyOrder` | src/libATA_SMART/SMARTaccess.cpp:94-151 | whatever the order, the last callback of an attribute marks it as read exactly if it is listed and no higher ID came before, and then stores its raw value, otherwise keeps the one from before |
| `IdLists.UnreportedKept` | src/libATA_SMART/SMARTaccess.cpp:149-151 | attributes that are not reported keep flag and raw value |
| `IdLists.AscendingCallbacks` | src/libATA_SMART/SMARTaccess.cpp:72-152 | with ascending callbacks an attribute is marked, and its raw value stored, exactly if it is listed; otherwise it keeps its raw value |
| `SmartAccess.AttrHelper.CollectRead` | src/attributes/SMARTuniqueIDandValues.hpp:94-101 | the array holds the flagged IDs 1 to N-1 and a 0, in bounds |
| `IdLists.FlaggedIsExact` | src/attributes/SMARTuniqueIDandValues.hpp:94-101 | the collected list is ascending and holds exactly the flagged IDs |
| `IdLists.DiscoveryRebuildsReadList` | src/attributes/SMARTuniqueIDandValues.hpp:94-101 | intersection, ascending callbacks and collection compose to the list that was to be read without the last ID N, so to the list itself if and only if N is not in it |
| `ValuesMessage.ClientCollectsExactly` | src/attributes/SMARTuniqueIDandValues.hpp:94-101 | what a client collects from one values message, and when that is the service's list |
| `ValuesMessage.ClientDiscoversReadList` | src/client/InterProcComm/BSDskt/SMARTmonUI_BSDskt.cpp:619-631 | a client that collects what it received works with the service's list of attributes if and only if the last ID N is not in it and all raw values in it were found consistent |
| `ValuesMessage.LastAttributeIsNotListed` | src/attributes/SMARTuniqueIDandValues.hpp:96-98 | attribute 254 of 254 arrives and is not listed |
| `LockFreeWords.Interleaving` | src/attributes/SMARTuniqueIDandValues.cpp:62-226 | over every schedule the loads of a reader see the memory at nondecreasing numbers of stores |
| `LockFreeWords.Realizable` | src/attributes/SMARTuniqueIDandValues.cpp:62-226 | any nondecreasing numbers of stores do happen on some schedule |
| `LockFreeWords.JoinSplit` | src/attributes/SMARTuniqueIDandValues.cpp:101-106 | a 64-bit value is rebuilt from its longs |
| `ChecksumProtocol.RawMemory` | src/attributes/SMARTuniqueIDandValues.cpp:62-117 | the words in memory after any number of stores of any number of writes |
| `ChecksumProtocol.RawReadJoins` | src/attributes/SMARTuniqueIDandValues.cpp:177-226 | after any number of writes an accepted reading compared between writes joins a high long and a not older low long |
| `ChecksumProtocol.RawReadIsWhole` | src/attributes/SMARTuniqueIDandValues.cpp:177-226 | compared between two writes, and overlapped by at most one, an accepted value is the whole old or the whole new one |
| `ChecksumProtocol.TwoWritesTear` | src/attributes/SMARTuniqueIDandValues.cpp:177-226 | with two overlapping writes it may be neither |
| `ChecksumProtocol.ManyWritesExactly` | src/attributes/SMARTuniqueIDandValues.cpp:62-226 | for which sequences of written values no schedule makes a reader accept anything but a written value, or one held while it read, compared between writes or at any time |
| `ChecksumProtocol.SameHighNeverTears` | src/attributes/SMARTuniqueIDandValues.cpp:62-226 | values that agree in their high long are never mixed up, over every schedule of any number of writes |
| `ChecksumProtocol.RawExactly` | src/attributes/SMARTuniqueIDandValues.cpp:62-125 | for which old and new values no schedule of one write makes a reader accept a mix, in closed form |
| `ChecksumProtocol.RawTornOnSchedule` | src/attributes/SMARTuniqueIDandValues.cpp:177-226 | a schedule for all other pairs, and the mix it accepts |
| `ChecksumProtocol.CommentedExampleTears` | src/attributes/SMARTuniqueIDandValues.cpp:81-91 | the pair in the source's comment is one of these |
| `ChecksumProtocol.TimeMemory` | src/attributes/SMARTuniqueIDandValues.cpp:152-169 | the words in memory after any number of stores of any number of writes |
| `ChecksumProtocol.ManyTimesExactly` | src/attributes/SMARTuniqueIDandValues.cpp:128-169 | for which sequences of retrieval times no schedule makes a reader accept anything but a written time, or one held while it read, compared between writes or at any time, with one or two loads of the low long |
| `ChecksumProtocol.SameHighTimesNeverTear` | src/attributes/SMARTuniqueIDandValues.cpp:128-169 | times that agree in their high long are never mixed up |
| `ChecksumProtocol.TimeReadIsWhole` | src/attributes/SMARTuniqueIDandValues.cpp:128-169 | over any number of writes, compared between two writes and overlapped by at most one, an accepted time is the whole old or new one; with two loads of the low long if the pair is safe |
| `ChecksumProtocol.TwoTimesTear` | src/attributes/SMARTuniqueIDandValues.cpp:128-169 | with two overlapping writes it may be neither, also with one load |
| `ChecksumProtocol.TimeExactly` | src/attributes/SMARTuniqueIDandValues.cpp:128-169 | for which old and new retrieval times no schedule of one write makes a reader accept a mix, in closed form, compared between writes or at any time, with one or two loads of the low long |
| `SmartAttr.SMARTattr.SetRawVal` | src/attributes/SMARTuniqueIDandValues.cpp:62-117 | a completed write leaves both longs and their XOR, by the stores of the concurrent program in its order |
| `SmartAttr.SMARTattr.IsConsistent` | src/attributes/SMARTuniqueIDandValues.cpp:177-226 | accepts exactly when the XOR of the longs is the sum, and rebuilds the value from them, by the loads of the concurrent program in its order |
| `SmartAttr.SMARTattr.SetRetrievalTime` | src/attributes/SMARTuniqueIDandValues.cpp:152-169 | a completed write leaves both longs and their XOR, by the stores of the concurrent program in its order |
| `SmartAttr.SMARTattr.GetRetrievalTime` | src/attributes/SMARTuniqueIDandValues.cpp:128-150 | accepts exactly when the XOR of the longs is the sum, and copies the time from them, by the loads of the concurrent program in its order |
| `SmartAttr.CompleteReadsBack` | src/attributes/SMARTuniqueIDandValues.cpp:62-226 | every 64-bit value is accepted and read back after a completed write |
| `SmartAttr.WriterAlone` | src/attributes/SMARTuniqueIDandValues.cpp:62-169 | the writers' steps without a reader in between amount to the two methods |
| `Framing.FrameReceived` | src/service/SMARTmonitorService.cpp:288-301 | what a client receives of any frame: the message cut to its length modulo 2^16, nothing if that is 0 |
| `Framing.FrameExactly` | src/service/SMARTmonitorService.cpp:292-299 | a message arrives unchanged if and only if its length is 1 to 65533 |
| `Framing.FrameBytes` | src/service/SMARTmonitorService.cpp:288-301 | which messages can be framed, and the bytes: the length, high byte first, and the message |
| `Framing.PartialFrame` | src/client/InterProcComm/BSDskt/SMARTmonUI_BSDskt.cpp:98-126 | of a frame that is cut short anywhere nothing is received |
| `Framing.CutStream` | src/client/InterProcComm/BSDskt/SMARTmonUI_BSDskt.cpp:98-126 | of a stream that ends within a frame the complete messages are received, and nothing else |
| `Framing.FramingRoundTrip` | src/client/InterProcComm/BSDskt/SMARTmonUI_BSDskt.cpp:37-75 | any sequence of messages is received frame by frame as sent if and only if each has such a length |
| `Framing.FramesArrive` | src/client/InterProcComm/BSDskt/SMARTmonUI_BSDskt.cpp:37-75 | what is received of the frames of any sequence of messages and of what follows them, to where reading fails |
| `SocketEnds.SMARTmonitorService.ByteArrayFromString` | src/service/SMARTmonitorService.cpp:288-301 | the bytes are the frame of the message |
| `SocketEnds.SMARTmonitorService.SendBytesTo1Client` | src/service/SMARTmonitorService.cpp:303-335 | the client gets the whole frame, or nothing and the result says so |
| `SocketEnds.SMARTmonitorService.SendSupportedIDs` | src/service/SMARTmonitorService.cpp:73-132 | the socket gets the frames of exactly the ID messages that can be written, in order |
| `SocketEnds.SMARTmonitorService.AcceptClient` | src/service/SMARTmonitorService.cpp:190-213 | an accepted socket is sent the ID frames and is not added yet |
| `SocketEnds.SMARTmonitorService.AddClient` | src/service/SMARTmonitorService.cpp:224-231 | the accepted client is added |
| `SocketEnds.SMARTmonitorService.RemoveBroken` | src/service/SMARTmonitorService.cpp:272-286 | exactly the given clients are removed |
| `SocketEnds.SMARTmonitorService.SendBytesToAllClients` | src/service/SMARTmonitorService.cpp:337-361 | exactly the clients that can be written to get the frame, and exactly the others are dropped |
| `ServiceProtocol.EveryRun` | src/service/SMARTmonitorService.cpp:180-231 | over all interleavings of accepting, adding and broadcasting: who is a client, and that each was sent the ID frames that could be written and then the broadcasts since it was added, in order, up to the first failure |
| `ServiceProtocol.BroadcastKeepsClient` | src/service/SMARTmonitorService.cpp:337-361 | a broadcast keeps that for every client |
| `ServiceProtocol.NeverBrokeGetsAll` | src/service/SMARTmonitorService.cpp:351-357 | a client that never failed got all broadcasts since it was added |
| `ServiceProtocol.BrokenGetsPrefix` | src/service/SMARTmonitorService.cpp:351-357 | a client that failed got the broadcasts since it was added up to the first it could not be written |
| `ServiceProtocol.StepsPossible` | src/service/SMARTmonitorService.cpp:180-231 | after any run, which clients can be accepted and added, and that every message that can be framed can be broadcast |
| `ServiceProtocol.AtPlacesConcat` | src/service/SMARTmonitorService.cpp:86-127 | whether an ID message is sent depends on its own write alone, and the order is kept |
| `ServiceProtocol.InStepExactly` | src/client/InterProcComm/BSDskt/SMARTmonUI_BSDskt.cpp:595-641 | reading one ID message and then values, what a client gets in its session; if something arrives of its ID messages, exactly the broadcasts as values if and only if one ID message was written to it and every broadcast has a length of 1 to 65533 |
| `SocketEnds.SMARTmonitorClient.ReadNumFollowingBytes` | src/client/InterProcComm/BSDskt/SMARTmonUI_BSDskt.cpp:37-75 | the length in network byte order, or -1 |
| `SocketEnds.SMARTmonitorClient.ReadMessage` | src/client/InterProcComm/BSDskt/SMARTmonUI_BSDskt.cpp:98-135 | one message is taken from the socket, as long as its two length bytes say and followed by what stays there, if all of it is there; or none, with what was there used up |
| `SocketEnds.SMARTmonitorClient.RunSession` | src/client/InterProcComm/BSDskt/SMARTmonUI_BSDskt.cpp:557-667 | a session yields the first message as IDs and all following ones as values |
| `UnitCodec.UnitRoundTrip` | src/service/SMARTmonitorService.cpp:427-437 | every nonzero unit, with its top bit, is decoded from its text; a unit of 0 leaves the client's |
| `UnitCodec.BoundRoundTrip` | src/tinyxml2/ProcessSMARTdata.cpp:87-92 | every bound, 0 and negative ones included, is decoded from its text |
| `UnitCodec.UnitTexts` | src/service/SMARTmonitorService.cpp:427-443 | the texts on the way: nothing for 0, ">" and the unmasked number for a marked unit, else the number |
| `UnitCodec.EmptyUnitKept` | src/tinyxml2/ProcessSMARTdata.cpp:93-101 | a missing or empty unit leaves the client's |
| `Decimal.NumberRead` | src/tinyxml2/ProcessSMARTdata.cpp:100 | a number with or without sign is read whatever follows it |
| `Decimal.SpacesSkipped` | src/tinyxml2/ProcessSMARTdata.cpp:100 | white space before it is ignored |
| `UnitCodec.NegativeRawClears` | src/tinyxml2/ProcessSMARTdata.cpp:73-83 | a negative raw value leaves the attribute as not read and otherwise as it was |
| `UnitCodec.OutOfRangeIgnored` | src/tinyxml2/ProcessSMARTdata.cpp:67-72 | elements with other IDs out of range change nothing |
| `UnitCodec.MessageInOrder` | src/service/SMARTmonitorService.cpp:399-447 | elements stand in the order of the list |
| `UnitCodec.HandleEncoded` | src/tinyxml2/ProcessSMARTdata.cpp:63-110 | what a client holds after handling an encoded attribute |
| `UnitCodec.ValuesArrive` | src/service/SMARTmonitorService.cpp:399-447 | after a message the client has exactly the consistently read attributes of the list as the service has them, and all others as before |
| `ValuesMessage.SMARTuniqueIDandValues.BeforeWait` | src/service/SMARTmonitorService.cpp:399-447 | the message has one element for each attribute of the list that was read and found consistent, in order |
| `ValuesMessage.SMARTuniqueIDandValues.HandleSingleEntry` | src/tinyxml2/ProcessSMARTdata.cpp:63-110 | one element changes its attribute as specified and no other, a negative raw value clearing only the flag; an ID out of range changes nothing |
| `ValuesMessage.SMARTuniqueIDandValues.HandleMessage` | src/tinyxml2/ProcessSMARTdata.cpp:112-135 | all elements are handled in order |
| `IdListText.IDListRoundTrip` | src/service/SMARTmonitorService.cpp:109-123 | every list of in-range IDs is parsed back from its comma-separated text |
| `IdListText.JoinedWithCommas` | src/service/SMARTmonitorService.cpp:109-120 | the text is the printed IDs with commas between them |
| `IdListText.FieldConverted` | src/tinyxml2/ProcessSMARTdata.cpp:229-247 | a field that is no number, or above the highest ID, is converted to 0 |
| `IdListText.FieldsConverted` | src/tinyxml2/ProcessSMARTdata.cpp:301-328 | of any text every field is converted, in order, except an empty last one |
| `IdListText.ParseIDList` | src/tinyxml2/ProcessSMARTdata.cpp:301-328 | the in-place loop stores the IDs of the text, and a 0 where there is room |
| `IdListText.ConvertAt` | src/tinyxml2/ProcessSMARTdata.cpp:229-247 | one field up to its NUL is converted, 0 for what is no number or out of range |
| `TimeFormat.FormatTime` | src/UserInterface/UserInterface.cpp:57-121 | prints exactly the parts of the time, and subtracts nothing below 0 on the way |
| `TimeFormat.RunningRemainder` | src/UserInterface/UserInterface.cpp:64-114 | the mix of running and plain remainders computes the parts |
| `TimeFormat.OnlyPositiveParts` | src/UserInterface/UserInterface.cpp:66-114 | the text splits into exactly the parts above 0, in order, each with its number and unit |
| `TimeFormat.FiveSeconds` | src/UserInterface/UserInterface.cpp:66-114 | 5000 ms are "5s" |
| `TimeFormat.PartsExactly` | src/UserInterface/UserInterface.cpp:64-114 | exactly one choice of parts in range makes up a time |
| `TimeFormat.TimeRoundTrip` | src/UserInterface/UserInterface.cpp:57-121 | every printed time is read back by a parser |
| `TimeFormat.DifferentTimesPrintDifferently` | src/UserInterface/UserInterface.cpp:57-121 | two times print alike only if they are the same, "unknown" included |
| `RealValue.GetRealValue` | src/client/SMARTmonitorClient.cpp:289-368 | for every text the result is the raw value times a multiplier that depends on the text alone |
| `RealValue.ReadChar` | src/client/SMARTmonitorClient.cpp:306-365 | one character, with the number in 64 bits and an unbounded term |
| `RealValue.MultiplierExactly` | src/client/SMARTmonitorClient.cpp:307-365 | the multiplier is at most the coefficient of the text in unbounded numbers, and equal to it if and only if every number that counts fits 64 bits |
| `RealValue.ResultExactly` | src/client/SMARTmonitorClient.cpp:541-549 | the result is raw times that coefficient for every raw value if and only if they fit |
| `RealValue.TooManyHours` | src/client/SMARTmonitorClient.cpp:340-342 | a text whose numbers do not fit |
| `RealValue.ErrorExactly` | src/client/SMARTmonitorClient.cpp:329-362 | a text is an error if and only if some character is out of place |
| `RealValue.GroupsScanned` | src/client/SMARTmonitorClient.cpp:307-365 | for every sequence of numbers with unit letters there is no error, and the coefficient sums a term for each letter |
| `RealValue.SingleUnits` | src/client/SMARTmonitorClient.cpp:334-346 | for every n the coefficients of n bytes, gigabytes, hours and seconds |
| `RealValue.ConfiguredBytes` | config/dataCarrierDefs.xml:39-40 | "512B" is counted as 512 |
| `RealValue.MeantExactly` | src/client/SMARTmonitorClient.cpp:334-364 | the coefficient is number times units if and only if every number that counts has one letter |
| `RealValue.ConfiguredGB` | config/dataCarrierDefs.xml:11 | "1GB" is counted as 2000000000 |
| `RealValue.ConfiguredHours` | config/dataCarrierDefs.xml:10 | "1h15s" is 3615000 ms |
| `RealValue.ConfiguredDegrees` | config/dataCarrierDefs.xml:17-24 | degrees leave the raw value alone, "32MiB" is an error |
| `DriveIdentity.StrNCmpOrdersNames` | src/attributes/SMARTuniqueID.cpp:31-45 | the bounded comparison is the dictionary order of the names in the arrays |
| `DriveIdentity.BeforeExactly` | src/attributes/SMARTuniqueID.cpp:31-45 | what dictionary order means: at the first difference the lower char, or the end |
| `DriveIdentity.LessExactly` | src/attributes/SMARTuniqueID.cpp:23-66 | drives are ordered by model, then firmware, then serial number |
| `DriveIdentity.DriveOrder` | src/attributes/SMARTuniqueID.cpp:23-66 | irreflexive, transitive, and undecided exactly between drives with the same three names |
| `DriveIdentity.AssignmentKeepsKey` | src/attributes/SMARTuniqueID.cpp:114-128 | an assigned drive has the original's names and place in the order |

## Left out

- User interfaces, icons, logging, configuration files, and the XML around the attributes of a message.
- Opening, closing, connecting and selecting of sockets, time-outs, and writes that send a part of the bytes.
- Reading drives through libatasmart or Windows, and the sources of the metrics (uptime, bytes written and read).
- More than one drive: the service does not clear the text of a message between drives, so each message would repeat the ones before.
- The stop flag of the update loop, and starting it again.
- Ratings of values, SI prefixes, and normalized values.
- The variant of `SMARTattr` with change counters or a critical section, and raw values of 16 bytes.
- Builds whose `long int` has 8 bytes, in `SmartAttr` and `ChecksumProtocol`: there a raw value is a single word.
- White space and overflow in the numbers of an ID list; maps from drives to device paths.
- Callback: the unit detection, the retrieval time and the normalized values it also sets.
- SetRetrievalTime: models it from the milliseconds on.
- HandleEncoded: the raw value travels as a number, and the retrieval time is not part of the element.
- ValuesArrive: excludes raw values from 2^63 on, as ClientDiscoversReadList does.
- HandleSingleEntry: excludes the ID N + 1, at which the source would write past its arrays; so does HandleMessage.
- ParseIDList: excludes texts with more IDs than the array holds, which the source would write past its end.
- ByteArrayFromString: excludes lengths of 65534 and 65535 modulo 2^16, for which the source would copy a negative number of bytes.
- FormatTime: models a `faststUint` of 8 bytes, because with 4 bytes the number of seconds itself would wrap after 136 years.
- BeforeWait: takes the verdicts of `IsConsistent` as a parameter, because these depend on the schedule; the time of retrieval is not part of the element.
