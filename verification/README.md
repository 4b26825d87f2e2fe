# Verified model of the remote-wiring telemorph

`remote-wiring` lets a host program drive the pins and the I2C bus of a remote board over a serial line
that speaks the Firmata protocol. The host keeps a replica of the board (the "telemorph"), filled by a
survey and kept up to date by refreshes and reports, and an I2C endpoint on the same line. This project
models both in Dafny 4.11 and proves what the replica, the board and the wire are worth to each other.

`dafny verify dfyconfig.toml` checks everything.

## How it is laid out

| file | content |
|---|---|
| `Basics.dfy`, `WiringPin.dfy` | number ranges, `realloc`, the mode flags and the Firmata mode codes |
| `Capability.dfy` | the grammar of a capability response, its printer, and what one pin's entry means |
| `Host.dfy` | the replica as a value and one function per operation; uninitialised slots are an arbitrary `junk` argument |
| `Operations.dfy` | what every call and reply does, case by case: when it succeeds, what it then caches, sends and returns, which error it is refused with; stated without the functions of `Host.dfy` that decide it |
| `RwUtility.dfy`, `FirmataDevice.dfy` | the telemorph object: arrays that are reallocated and updated in place, the Wiring guards, the inbound handlers; every method is proved equal in effect to its function in `Host.dfy` |
| `Board.dfy` | an abstract board, replay of an outbound log on it, and its answers |
| `Coherence.dfy`, `Telemorph.dfy`, `Conversation.dfy`, `Runs.dfy` | host and board joined by two FIFO channels; the invariant of every interleaving; theorems about whole runs |
| `Reports.dfy` | runs of the host against any board: port reports, interrupts, analog routing, failing calls |
| `I2cFrames.dfy`, `I2cEndpoint.dfy`, `FirmataI2c.dfy` | I2C framing, the endpoint as a value, and the endpoint as an object writing byte by byte |
| `Rendezvous.dfy` | `requestFrom` against the serial thread, one critical section or push per step |

## What the main results say

Runs interleave API calls, deliveries in either direction and spontaneous reports in any order. The
caller's discipline is a caller's to keep: between a survey or refresh and its callback it starts no other
conversation and makes no call that changes a cached mode (`UndisturbingCalls` lists what it may do). The board answers in order and truthfully; it may
refuse or honour modes it did not announce, and a reset leaves analog inputs in ANALOG mode and other
digital outputs in OUTPUT mode, as the comment at `src/FirmataDevice.cpp:465` says.

- Replaying all the host ever sent takes each pin to exactly its cached mode, unless that is unspecified.
- After a survey, values are only sent to pins that the log has put in the mode for them.
- Every survey and refresh calls back exactly once, with the cache complete; deliveries alone get it there.
  The first survey of a reporting host leaves every recognised mode of the board in the cache.
- The capability parser is the inverse of the printer, and on every byte string the printer inverts it.
- I2C transactions, requests and replies arrive as sent, and the bytes on the wire split uniquely.
- The promise of a blocking `requestFrom` is never set after the call is over, under any interleaving.

These things do not hold as one might expect; each is shown failing and given its exact condition:

- Dispatch of interrupts: `attachInterrupt` can leave uninitialised slots that a report then calls
  (`UninitialisedSlotIsCalled`). A report is right whatever memory held if and only if every allocated slot
  that it looks at was attached or detached (`DispatchIsRightIff`).
- The promise of a request is set twice (`SecondReplyThrows`) if and only if some window between publishing
  and withdrawing the pointer receives a second signal (`PromiseIsSetOnce`).
- A woken request can lack bytes of its reply (`StraddlingReplyMisleads`). It has the whole reply and nothing
  else if and only if no byte of the reply was pushed before the pointer was published and none was pushed
  after the signal (`WokenCallHoldsReply`), in particular in every window that opens between replies and gets
  one, whatever earlier windows went through (`WokenCallAgreesWithBuffer`).
- A mode change that overtakes a reply of a refresh: cache and board agree afterwards if and only if one of
  the four cases of `SurvivesOvertaking` holds (`OvertakenModeIsForgotten`).
- Behind its guard, `_pinMode` with an unknown mode grows an unsurveyed board although it fails
  (`RawPinModeFailure`). The guarded call is atomic.
- `_flush` does not empty the transmit buffer, so a slave's reply carries exactly the bytes written for it
  if and only if the buffer was empty before (`ReplyCarriesOnlyNewBytes`).
- A blocking call returns `errno` as it stands, so it reports success if and only if `errno` was clear
  before and the wait did not fail (`Survey`, `Refresh`, `Reset`).

Bounds are a class invariant: `FirmataDevice.FirmataDevice.Valid` relates each count to its array through
lazy growth and through surveys that shrink the board, so every index in every method is in range.

## Model

| member | source | states |
|---|---|---|
| `WiringPin.CodeOf` | src/FirmataDevice.cpp:661-689 | each host mode has exactly one Firmata code, so translating there and back is the identity |
| `WiringPin.SupportsUnion` | src/FirmataDevice.cpp:663-686 | or-ing a mode into the supported modes adds that capability and no other |
| `Capability.DescribeMeaning` | src/FirmataDevice.cpp:656-696 | a capability is stored if and only if its mode is listed; each resolution is the last one listed for its mode, or 0 |
| `Capability.ParseOfPrint` | src/FirmataDevice.cpp:650-699 | parsing the encoding of any pins, no pair of which starts with 0x7F, returns those pins in order |
| `Capability.PrintOfParse` | src/FirmataDevice.cpp:659-697 | every byte string is the encoding of the pins it completes followed by an unfinished pin that is dropped |
| `FirmataDevice.FirmataDevice.ParseCapabilities` | src/FirmataDevice.cpp:652-697 | the byte loop with its toggling flags stores one info per pin of the grammar, whatever the bytes, and leaves an old cache alone if no pin is complete |
| `FirmataDevice.FirmataDevice.OnCapabilityResponse` | src/FirmataDevice.cpp:650-705 | the parsed pins, as many uninitialised states, and the mapping query; nothing else changes |
| `FirmataDevice.FirmataDevice.OnAnalogMappingResponse` | src/FirmataDevice.cpp:637-649 | the mapping is stored pin by pin and the survey's callback is handed to a refresh of all pins |
| `FirmataDevice.FirmataDevice.OnPinStateResponse` | src/FirmataDevice.cpp:780-858 | malformed and out-of-range replies are refused; otherwise one pin's mode, value and report message, which `Operations.ReplyIsTaken` gives for every mode code, and on the last pin the end of reporting, the lock and the callback |
| `FirmataDevice.FirmataDevice.OnAnalogReport` | src/FirmataDevice.cpp:509-530 | the linear search updates the least pin mapped to the channel, and no other state |
| `FirmataDevice.FirmataDevice.OnDigitalReport` | src/FirmataDevice.cpp:532-557 | the loop over the captured window stores the bits and runs handlers in the order described by `Handlers`, which `Reports.DispatchCallsTheRegistered` gives per pin and interrupt mode |
| `FirmataDevice.CaptureCountMeaning` | src/FirmataDevice.cpp:541-542 | the unsigned subtraction and its conversion to `int` capture the existing pins of the port, none when the port lies beyond the last pin |
| `FirmataDevice.FirmataDevice.PinMode` | include/Wiring.h:318-347 | the guard composed with the implementation; `Operations.PinModeInput`, `PinModePullup`, `PinModeOutput` and `PinModeIsGuarded` give the cached mode, messages and errors of each case |
| `FirmataDevice.FirmataDevice.PinModeImpl` | src/FirmataDevice.cpp:313-439 | mode decision on surveyed and unsurveyed boards, cache change and messages in order, as the same lemmas spell out |
| `FirmataDevice.FirmataDevice.AnalogRead` | include/Wiring.h:57-77 | the guard, the implementation and the clamp of results above 1023 |
| `FirmataDevice.FirmataDevice.AnalogReadImpl` | src/FirmataDevice.cpp:83-118 | growth, refusal, switching to analog mode on first use, cached value afterwards |
| `FirmataDevice.FirmataDevice.AnalogWrite` | include/Wiring.h:116-138 | the guards on pin and value composed with the implementation |
| `FirmataDevice.FirmataDevice.AnalogWriteImpl` | src/FirmataDevice.cpp:120-150 | refusal, or the mode change if needed followed by the value |
| `FirmataDevice.FirmataDevice.DigitalRead` | src/FirmataDevice.cpp:237-267 | refusal unless the pin exists, can and is set to read; then whether its value is non-zero |
| `FirmataDevice.FirmataDevice.DigitalWrite` | include/Wiring.h:282-299 | the guard on the pin composed with the implementation; `Operations.DigitalWriteSends` gives the level sent and when it succeeds |
| `FirmataDevice.FirmataDevice.DigitalWriteImpl` | src/FirmataDevice.cpp:269-304 | an unspecified pin becomes an output at the first write, any other mode is refused; the level sent is the level given (`Operations.DigitalWriteSends`) |
| `FirmataDevice.FirmataDevice.AttachInterrupt` | include/Wiring.h:165-203 | the guards on pin, handler and mode composed with the implementation |
| `FirmataDevice.FirmataDevice.AttachInterruptImpl` | src/FirmataDevice.cpp:171-202 | one slot written, the cache grown with uninitialised slots if needed |
| `FirmataDevice.FirmataDevice.DetachInterrupt` | src/FirmataDevice.cpp:214-235 | one slot cleared, or refusal beyond the interrupt cache |
| `FirmataDevice.FirmataDevice.UpdateStorageForPin` | src/FirmataDevice.cpp:863-882 | the state cache covers the pin, earlier slots survive, new ones are arbitrary |
| `FirmataDevice.FirmataDevice.UpdateStorageForPinInterrupt` | src/FirmataDevice.cpp:884-903 | the interrupt cache covers the pin, earlier slots survive, new ones are arbitrary |
| `FirmataDevice.FirmataDevice.RefreshImpl` | src/FirmataDevice.cpp:441-454 | callback and lock taken, one query per pin in ascending order |
| `FirmataDevice.FirmataDevice.ResetImpl` | src/FirmataDevice.cpp:456-479 | every pin in the mode a reset leaves it in with value 0, reporting as at construction, callback made |
| `FirmataDevice.FirmataDevice.SurveyImpl` | src/FirmataDevice.cpp:490-500 | callback stored, capability query sent |
| `FirmataDevice.FirmataDevice.Survey` | include/RwUtility.h:25-69 | the blocking form: the callback kept is the given one or else the call's own, what is returned, and success reported if and only if `errno` was clear and the wait did not fail |
| `FirmataDevice.FirmataDevice.Refresh` | include/RwUtility.h:25-69 | the same for refresh |
| `FirmataDevice.FirmataDevice.Reset` | include/RwUtility.h:25-69 | the same for reset |
| `FirmataDevice.FirmataDevice.constructor` | src/FirmataDevice.cpp:20-45 | the empty, unsurveyed replica with its lock free, reporting unless inputs are just-in-time |
| `Operations.PinModeIsGuarded` | include/Wiring.h:318-347 | unknown pins and modes are refused with EINVAL, pins a surveyed board lacks with ENXIO, without a trace |
| `Operations.PinModeInput` | src/FirmataDevice.cpp:355-369 | INPUT caches the plain input, sends the INPUT mode and turns on the reports of the pin's port, or is refused with EPERM |
| `Operations.PinModePullup` | src/FirmataDevice.cpp:370-384 | the same for INPUT_PULLUP and the pulled-up input |
| `Operations.PinModeOutput` | src/FirmataDevice.cpp:330-354 | with both write capabilities the mode stays open and nothing is sent; with one, it is that mode; with none, EPERM |
| `Operations.DigitalWriteSends` | src/FirmataDevice.cpp:269-304 | succeeds if and only if the pin exists, can write and is an output or open; sends the given level, after the OUTPUT mode exactly when open; the error otherwise |
| `Operations.AnalogWriteSends` | src/FirmataDevice.cpp:120-150 | succeeds if and only if the amount is at most 255 and the pin exists and can; sends the given amount, after the PWM mode exactly when not in it; the error otherwise |
| `Operations.DigitalReadReturns` | src/FirmataDevice.cpp:237-267 | permitted if and only if the pin exists, can read and is an input of either kind; non-zero if and only if the cached value is |
| `Operations.AnalogReadReturns` | include/Wiring.h:57-77 | a pin in analog mode gives its sample up to 1023 and a range error above; any other able pin is switched to analog and gives a range error |
| `Operations.AnalogReadRefuses` | include/Wiring.h:57-77 | all other analog reads are refused, except that an unsurveyed board gets the pin first |
| `Operations.AnalogReadImplRefuses` | src/FirmataDevice.cpp:94-105 | behind the clamp, the errors for a missing pin and for one that cannot sample |
| `Operations.AttachStores` | src/FirmataDevice.cpp:171-202 | succeeds if and only if there is a handler, one of the five modes and a pin able to read; exactly that slot is written |
| `Operations.DetachClears` | src/FirmataDevice.cpp:214-235 | succeeds exactly on an allocated slot, which is left without a handler |
| `Operations.SurveyAsks` | src/FirmataDevice.cpp:490-500 | the callback is kept and one capability query sent |
| `Operations.RefreshAsks` | src/FirmataDevice.cpp:441-454 | callback and lock taken; the k-th message asks for pin k, for every pin |
| `Operations.ResetClears` | src/FirmataDevice.cpp:456-479 | reporting is as at construction, every value is 0, and the mode is analog input, else output, else unspecified, by capability |
| `Operations.CapabilitiesAreStored` | src/FirmataDevice.cpp:650-705 | every pin supports a mode if and only if its entry lists the code of that mode; a reply without a complete pin leaves the old infos behind an empty state cache |
| `Operations.MappingIsStored` | src/FirmataDevice.cpp:637-649 | the k-th byte is the channel of pin k, pins beyond the reply keep theirs, and all pins are asked for on behalf of the survey |
| `Operations.ReplyIsTaken` | src/FirmataDevice.cpp:780-858 | OUTPUT and PWM are cached; INPUT, PULLUP and ANALOG are cached while reporting and forgotten otherwise; other codes leave the pin unspecified with EINVAL; the value, what is sent, the last reply and the lock |
| `Operations.ReplyIsRefused` | src/FirmataDevice.cpp:783-793 | short replies and pins beyond the count change nothing |
| `Operations.JoinIsOr` | src/FirmataDevice.cpp:841-844 | a value of two bytes is bit by bit the or of the low byte and the high byte shifted by seven |
| `Operations.UnsurveyedSample` | src/FirmataDevice.cpp:519-529 | without a survey the channel of a sample is its pin |
| `Board.QueriesAnswered` | src/FirmataDevice.cpp:449-452 | the queries of a refresh are answered by exactly one state per pin in order and change nothing |
| `Board.KnownSupports` | src/FirmataDevice.cpp:650-699 | the stored info supports a mode if and only if the board announced it |
| `Coherence.CallAgrees` | src/FirmataDevice.cpp:83-439 | every API call on a surveyed, coherent host leaves cache and replayed board in agreement, and sends values only to pins in the mode for them |
| `Coherence.ResetAgrees` | src/FirmataDevice.cpp:465-475 | a reset re-establishes agreement from the capabilities alone |
| `Coherence.ReactionIsHarmless` | src/FirmataDevice.cpp:794-837 | what the host sends upon a truthful reply changes no pin of the board |
| `Coherence.OvertakenModeIsForgotten` | src/FirmataDevice.cpp:794-837 | when `pinMode` overtakes a reply, the cache holds the reported mode, and cache and board agree if and only if the host left the pin open, forgets the report, adopted that same mode, or re-sends it as an input the board takes back |
| `Coherence.OvertakenInputDisagrees` | src/FirmataDevice.cpp:815-817 | the plainest failing case: an output made an input goes back to output in the cache alone |
| `Conversation.CapabilityKeeps` | src/FirmataDevice.cpp:650-705 | the reply due after a survey call stores exactly the board's pins and moves on to the mapping |
| `Conversation.MappingKeeps` | src/FirmataDevice.cpp:637-649 | the mapping reply fits the info cache, completes the known capabilities and starts the refresh |
| `Conversation.PinStateKeeps` | src/FirmataDevice.cpp:780-858 | each state reply is for the next pin, below the pin count; the pin then shows the board's mode (`Shows`: inputs only while reporting is on) and the board is told what follows (`Tells`); the last one calls back |
| `Conversation.SettledCallKeeps` | src/FirmataDevice.cpp:313-439 | calls between conversations keep the invariant, surveyed or not |
| `Conversation.UndisturbingCallKeeps` | src/FirmataDevice.cpp:269-439 | calls during a conversation that change no cached mode keep the invariant too, repeated mode changes included |
| `Conversation.UndisturbingCalls` | src/FirmataDevice.cpp:83-439 | reads, attaches, detaches, writes to pins in the mode for them and a `pinMode` to the cached mode are such calls |
| `Runs.DeliveryIsDue` | src/FirmataDevice.cpp:788-797 | whatever arrives is the reply waited for, so no inbound message indexes outside a cache |
| `Runs.StepKeeps` | src/FirmataDevice.cpp:627-861 | every step of every interleaving keeps the invariant |
| `Runs.RunKeeps` | src/FirmataDevice.cpp:627-861 | so does every run, and the board ends where the messages of the run take it |
| `Runs.CacheAgreesWithLog` | src/FirmataDevice.cpp:83-479 | from power-up, once surveyed, replaying the whole log takes each pin to its cached mode unless that is unspecified |
| `Runs.SettledIsPrimed` | src/FirmataDevice.cpp:441-454 | between conversations a surveyed cache is complete, the refresh lock free and nothing outstanding |
| `Runs.ValuesFitTheirPins` | src/FirmataDevice.cpp:137-146 | after a survey every digital value goes to a pin in OUTPUT mode and every analog value to one in PWM mode |
| `Runs.CacheStaysWithinCapabilities` | src/FirmataDevice.cpp:321-391 | every cached mode in every later run is unspecified or supported by the info of its pin, if the board reports only supported modes |
| `Runs.CallbacksFireOnce` | src/FirmataDevice.cpp:848-855 | callbacks made are callbacks handed in, each once and in order, all but at most the one under way |
| `Runs.ConversationCompletes` | src/FirmataDevice.cpp:490-500 | when a survey or refresh calls back, capabilities and mapping are stored, every pin shows the mode the board has it in (`Shows`, mode code by mode code), each pin's reporting has been switched, reporting upon query has ended and no pin of the board has changed |
| `Runs.FirstSurveyMirrorsBoard` | src/FirmataDevice.cpp:490-500 | after the first survey of a reporting host, each pin in one of the five known modes is cached in exactly that mode |
| `Runs.StepStaysUnderway` | src/FirmataDevice.cpp:794-855 | until it calls back, a conversation changes no pin of the board and has sent the reaction to every pin it has heard of; then it is concluded |
| `Runs.DeliveriesAreBounded` | src/FirmataDevice.cpp:637-705 | in every run, calls and reports interleaved, the deliveries are bounded by the work at the start and what the calls and reports added |
| `Runs.UnsettledIsEnabled` | src/FirmataDevice.cpp:637-858 | a conversation that has not called back always has a delivery to make |
| `Runs.ConversationsTerminate` | src/FirmataDevice.cpp:637-858 | so deliveries alone bring every conversation to its callback |
| `Reports.DispatchCallsTheRegistered` | src/FirmataDevice.cpp:541-556 | after any run of the host, a report calls exactly the registered handlers of the port that are due, ascending, once each, if every allocated slot of the captured window was attached or detached; due are HIGH and RISING on a non-zero report, LOW and FALLING on zero, CHANGE always |
| `Reports.DispatchIsRightIff` | src/FirmataDevice.cpp:541-556 | dispatch is right (as `DispatchCallsTheRegistered` spells out) after every run that makes the same calls, whatever uninitialised memory held, if and only if that premise holds |
| `Reports.UninitialisedSlotIsCalled` | src/FirmataDevice.cpp:892-900 | the smallest run in which an uninitialised slot is called |
| `Reports.DigitalFanOut` | src/FirmataDevice.cpp:544-546 | a port report changes exactly the values of the existing pins of its port; a permitted read returns the pin's bit |
| `Reports.PortIsConserved` | src/FirmataDevice.cpp:544-546 | the values stored for a full port add up to the low byte of the report |
| `Reports.SampleIsRouted` | src/FirmataDevice.cpp:516-529 | a sample changes the least pin mapped to its channel and nothing else; with an injective mapping, that pin |
| `Reports.UnmappedSampleIsDropped` | src/FirmataDevice.cpp:519-529 | a sample for an unmapped channel changes nothing |
| `Reports.ReadAfterSample` | src/FirmataDevice.cpp:106-115 | the first read of a pin raises a range error and switches it to analog; after a sample, the next read returns it |
| `Reports.ReplyStoresValue` | src/FirmataDevice.cpp:783-844 | a reply stores one value byte, or two septets high first, for its own pin only; malformed replies store nothing |
| `Reports.FailureIsAtomic` | include/Wiring.h:114-138 | a guarded mode change, write or attach that fails leaves replica and log as they were |
| `Reports.RawPinModeFailure` | src/FirmataDevice.cpp:394-433 | the unguarded `_pinMode` fails without a trace if and only if the board is surveyed or already has the pin |
| `Reports.RawPinModeGrowsTheBoard` | src/FirmataDevice.cpp:394-432 | the smallest failing call that grows the board; the public `pinMode` refuses its mode |
| `Reports.RegistryIsRecorded` | src/FirmataDevice.cpp:171-202 | through any growth of the cache, each slot holds what was last attached to or detached from its pin |
| `I2cFrames.FieldsOfData` | include/FirmataI2c.h:18-29 | reading the header byte back gives the fields written |
| `I2cFrames.DataOfFields` | include/FirmataI2c.h:26-29 | and every header byte is the byte of the fields read from it |
| `I2cFrames.EncodeMeaning` | src/FirmataI2c.cpp:110-113 | two septets a byte: every encoded byte is below 0x80 and decoding returns the bytes |
| `I2cFrames.EncodeAt` | src/FirmataI2c.cpp:110-113 | the low septet of each byte comes first |
| `I2cFrames.SplitOfStream` | src/FirmataI2c.cpp:106-115 | a stream of well-formed frames splits back into exactly those frames |
| `I2cEndpoint.EmittedStreamSplits` | src/FirmataI2c.cpp:53-59 | over every run of guarded calls the header is 0x00, 0x08, 0x40 or 0x48, payload bytes are below 0x80, and the stream splits into the messages sent |
| `I2cEndpoint.TransactionReachesSlave` | src/FirmataI2c.cpp:64-118 | a transaction is one frame, which the addressed slave takes as exactly the bytes written and dispatches as a receive |
| `I2cEndpoint.RequestReachesSlave` | src/FirmataI2c.cpp:199-218 | a request for bytes dispatches as a request and carries the quantity modulo 256; its header byte is given by `RequestFrame` |
| `I2cEndpoint.RequestFrame` | src/FirmataI2c.cpp:199-218 | the header is 0x08 with a stop and 0x48 without; address kept, receive buffer emptied, nothing else changed |
| `I2cEndpoint.WriteFrame` | src/FirmataI2c.cpp:64-118 | the header of a write transaction is 0x00 with a stop and 0x40 without; the bytes stay in the transmit buffer |
| `I2cEndpoint.BeginJoins` | include/Wire.h:89-160 | addresses 0x08 to 0x77 are joined with empty buffers, all others refused |
| `I2cEndpoint.EndForgets` | src/FirmataI2c.cpp:78-96 | both handlers are forgotten and nothing is dispatched any more |
| `I2cEndpoint.WrongCallsAreRefused` | include/Wire.h:177-192 | addresses wider than 7 bits, and a flush in master mode |
| `I2cEndpoint.PushedMeaning` | src/FirmataDevice.cpp:715-738 | what any reply adds to the receive buffer: its data from index 4, or the two address bytes under 10-bit addressing |
| `I2cEndpoint.OthersIgnore` | src/FirmataDevice.cpp:758-777 | a slave at another address takes nothing and runs no handler |
| `I2cEndpoint.ReplyReachesMaster` | src/FirmataI2c.cpp:134-143 | a slave's reply arrives as its bytes without the first, which stands in the register position; no slave address looks like a 10-bit header |
| `I2cEndpoint.ReplyCarriesOnlyNewBytes` | src/FirmataI2c.cpp:138-141 | a reply carries exactly the bytes written for it if and only if the transmit buffer was empty |
| `I2cEndpoint.ReadsDrain` | src/FirmataI2c.cpp:172-185 | reads return the buffer in order, and -1 once it is empty |
| `FirmataI2c.FirmataI2c.Begin` | include/Wire.h:89-160 | reserved and wide addresses are refused; otherwise the address taken, buffers cleared and the five bytes of the configuration frame written |
| `FirmataI2c.FirmataI2c.BeginTransmission` | src/FirmataI2c.cpp:64-76 | read mode off, address set, transmit buffer emptied, guarded by the 7-bit check |
| `FirmataI2c.FirmataI2c.Write` | src/FirmataI2c.cpp:263-269 | one byte queued |
| `FirmataI2c.FirmataI2c.EndTransmission` | src/FirmataI2c.cpp:98-118 | the bytes written one by one are exactly the frame of the transaction |
| `FirmataI2c.FirmataI2c.Flush` | src/FirmataI2c.cpp:120-148 | the bytes written are exactly the reply frame, or the call is refused in master mode |
| `FirmataI2c.FirmataI2c.Read` | src/FirmataI2c.cpp:172-185 | the first byte removed and returned, or -1 |
| `FirmataI2c.FirmataI2c.OnReply` | src/FirmataDevice.cpp:706-748 | the loop over pairs from index 4 appends the decoded data, a waiting request is signalled with the buffer size, and the signal throws if and only if the promise was set already |
| `FirmataI2c.FirmataI2c.OnI2cRequest` | src/FirmataDevice.cpp:749-779 | the loop over pairs from index 2, then the dispatch by read mode, or refusal of another address |
| `FirmataI2c.FirmataI2c.RequestFromImpl` | src/FirmataI2c.cpp:187-248 | the seven bytes of the request, header 0x08 or 0x48 by the stop flag, the promise withdrawn at the end, and a result equal to the number of bytes in the buffer |
| `FirmataI2c.RequestAndRead` | samples/wii_nunchuck.cpp:191-194 | a caller reads as many bytes as announced, they are the data of the reply in order, and the next read returns -1 |
| `FirmataI2c.SlaveToMaster` | src/FirmataI2c.cpp:120-248 | two endpoint objects: the request reaches the slave, and the master reads what the slave queued and wrote without the first byte |
| `FirmataI2c.MasterToSlave` | src/FirmataI2c.cpp:64-118 | two endpoint objects: what one writes arrives behind what the other already held |
| `Rendezvous.PointerIsLive` | src/FirmataI2c.cpp:195-247 | under every interleaving the promise pointer is set exactly inside its call's window and no dead promise is ever set; a call that gives up returns 0 |
| `Rendezvous.PromiseIsSetOnce` | src/FirmataDevice.cpp:740-745 | in every run a promise is set twice if and only if some window receives a second signal |
| `Rendezvous.FulfilThrowsIff` | src/FirmataDevice.cpp:742-744 | after any run that has not thrown, the next signal throws if and only if the schedule has put one in its window before |
| `Rendezvous.WokenCallHoldsReply` | src/FirmataI2c.cpp:204-223 | in every run a woken call returns the size of its reply less the bytes pushed before the publication, and it has the whole reply and nothing else if and only if none was and none came late |
| `Rendezvous.WokenCallAgreesWithBuffer` | src/FirmataI2c.cpp:221-247 | in a window that opens between replies and gets one, the woken call returns the number of data bytes; the buffer holds them, also after the call, and reads return them in order |
| `Rendezvous.SecondReplyThrows` | src/FirmataDevice.cpp:740-745 | a second reply in a window sets the promise again |
| `Rendezvous.StraddlingReplyMisleads` | src/FirmataDevice.cpp:733-745 | a reply caught between push and signal by a new request wakes it with bytes missing |

## Left out

- Marshaller, parser, stream, samples, board pin tables: messages are abstract, payloads are what lies between the sysex delimiters.
- Bytes of the shared serial line: the I2C frames and the pin messages are two separate outbound channels here.
- Attach, detach, firmware and protocol versions, sampling interval, clock: they touch none of the modelled state.
- Allocation failure, leaks and `new[]`/`realloc` mixing: allocations succeed, and a null cache that is never tested for is an empty array.
- Handlers and callbacks that call back into the device: they are recorded, not executed.
- Replies that name a pin equal to the pin count: the bounds check at `src/FirmataDevice.cpp:788` lets them through to an access outside the cache, so they are excluded by a precondition; for truthful boards `Runs.DeliveryIsDue` proves it.
- A refresh before the first survey: the board may have fewer pins than the caller has named, and then the reply for the last one never comes.
- Conversations that overlap: excluded by the discipline of the caller; `Coherence.OvertakenModeIsForgotten` says what a mode change costs.
- The mutex that stays locked when a promise throws: module Rendezvous lets runs go on, so its theorems cover them too.
- FirmataDevice.FirmataDevice.OnAnalogMappingResponse: excludes a reply longer than the info cache, which the source writes beyond its end.
- FirmataDevice.FirmataDevice.OnPinStateResponse: excludes a pin number equal to the pin count, as above.
- FirmataDevice.FirmataDevice.ResetImpl: excludes an unsurveyed board that has pins, whose null info cache the source dereferences.
- FirmataDevice.FirmataDevice.Reset: the same as `ResetImpl`.
- FirmataI2c.FirmataI2c.RequestFromImpl: takes at most one reply of the wait, as an argument; module Rendezvous has the interleavings.
- FirmataI2c.RequestAndRead: takes the one reply of the wait as an argument.
- FirmataI2c.FirmataI2c.RequestFrom: takes the reply of the wait as an argument; the interleavings of the two threads are those of module Rendezvous.
- Runs.CacheAgreesWithLog: says nothing before the first survey, where the board may not have the pins the caller names.
- Runs.ConversationCompletes: speaks of cached modes, not values, because reports may change values at any time.
