# Verification of the LoLa transport

A Dafny model of the uProtocol transport over Eclipse S-CORE communication (LoLa), with proofs about
it. `dafny verify dfyconfig.toml` checks all of it.

| part of the system | modules |
|---|---|
| configuration, words, powers of two, sets | `Base`, `Config`, `Alignment`, `LittleEndian`, `Sets` |
| metadata block of a ULOL frame | `Metadata`, `MetadataGrammar` (what is printed and parsed), `MetadataTheorems`, `MetadataCodec` (the imperative encoder and decoder) |
| frame in a fixed-size sample | `FrameLayout`, `FrameWriter` (both header writers in place), `Loans` |
| filtered pull receive | `PullQueue`, `PullReceive` (the transport class), `Sequences`, `PullTheorems` |
| the same with many tasks | `PullConcurrency` (one event per lock-held region), `PullOrder` (the order of returns), `PullRefinement` (the steps against the sequential calls), `ListenerTask` |
| native bridge and its handles | `SlotMapping`, `PoolLifetime` (thread micro-steps), `NativeBridge` |
| owned wrapper | `Owned`, `OwnedRegistry` |

The main results: the metadata decoder accepts exactly the printed blocks and inverts the encoder; both
writers grant the same loans and produce the same bytes; a loan that was granted reads back as exactly
what was written, aligned wherever the sample moves; a filtered receive is "remove the oldest match from
one list" with an exact account of overflow; every interleaving conserves samples and gives none of them
twice; frames of one filter arrive in order as long as receives do not overlap each other, whatever sends
and polls do in between; with calls that do not overlap, the listener task runs exactly while something is
registered and its start did not fail; a native pool is deleted once, last, and its slots never overlap; an
owned frame comes back equal.

## Assumptions

- The uProtocol library is the datatype `Metadata.Library`, whose fields are its functions. Assumed of it,
  as `Lawful`: a printed URI is a non-empty UTF-8 string that parses back to the same URI. UUID validity,
  UTF-8 validity, known formats and status codes, URI matching and the validation of a received frame
  are arbitrary predicates. Standard formats and status codes stand for their numeric codes, and a
  custom encoding keeps its two strings. A refusal by these functions is INVALID_ARGUMENT. A frame has
  a payload exactly when its metadata has an encoding.
- `usize`, `size_t` and `uintptr_t` are 64-bit; additions are the checked ones of the source, and the one
  wrapping multiplication of the bridge is modelled with its wrap. `alignof(std::max_align_t)` is 16.
- The address at which an allocator puts a sample is a parameter, and so is whether `Allocate` and `Send`
  of the runtime succeed and whether an async runtime is present.

## What the code does not promise

- Overlapping receives can return two frames of one filter out of order, because a receive that holds a
  mismatch between two locks hides it from the others (`PullOrder.OverlapCanReorder`). Order survives any
  overlap exactly when no mismatch can be retained or every filter in use takes what this one takes
  (`PullOrder.OrderSurvivesOverlapIff`); without that, it is proved for receives that do not overlap each
  other, with sends, polls and other filters in between (`PullOrder.FifoPerFilter`).
- Overlapping register and unregister calls can leave a listener without a task: an unregister that has
  emptied the registry aborts the task after another call has registered and found it running
  (`ListenerTask.OverlapCanLoseTheTask`), or a register call takes a task for running that has already
  decided to leave (`ListenerTask.OverlapCanMeetALeavingTask`). `ListenerTask.ServedIffNoLapse` says exactly
  when a registered listener is served, for every interleaving.
- A register call without an async runtime fails and yet stays registered
  (`ListenerTask.FailedRegisterStaysRegistered`); when this happens is stated exactly by
  `ListenerTask.RegisterStartsTaskIff`, and what follows from it by `ListenerTask.TaskRunsIffRegistered`.
- The two header writers return different status codes when the offset needs more than 32 bits and the
  frame does not fit (`FrameLayout.WritersGrantAlike`).

## Model

| member | source | states |
|---|---|---|
| Config.TransportConfig.ValidatesExactlyUsable | src/config.rs:72-96 | validation accepts exactly the configurations the other components rely on, and every refusal is INVALID_ARGUMENT; `Loans.GrantedLoanStaysAligned` and `PullReceive.UTransportLola.Build` use it |
| Alignment.PowersAreExponents | src/frame.rs:668-682 | the power-of-two test accepts exactly the values 2^k |
| Alignment.SmallerPowerDivides | src/transport.rs:342-352 | a power of two that is not larger divides the other, which is what makes the gate on the sample alignment sufficient |
| Alignment.AlignUpIsLeastMultiple | src/frame.rs:668-682 | rounding up gives the least multiple not below the value; it fails exactly for a bad alignment or when no 64-bit word is such a multiple |
| LittleEndian.ValueOfLe | src/frame.rs:810-812 | reading back a word written in little-endian order gives the word |
| LittleEndian.LeOfValue | src/frame.rs:873-876 | every byte string of a width is the little-endian form of exactly one word, so nothing is lost in the other direction either |
| LittleEndian.WordOfBytes | src/frame.rs:878-892 | a 32-bit word is written and read with its lowest byte first, in terms of the four bytes |
| LittleEndian.LongOfBytes | src/frame.rs:873-876 | a 64-bit word is its low word, then its high word |
| MetadataGrammar.BytesExact | src/frame.rs:944-954 | taking bytes succeeds exactly when the input is those bytes followed by the rest |
| MetadataGrammar.U64Exact | src/frame.rs:873-876 | the 64-bit reader returns a value and a rest if and only if the input is that value as printed, then the rest |
| MetadataGrammar.OptionalU32Exact | src/frame.rs:878-892 | the same if-and-only-if for an optional 32-bit field, with only 0 and 1 as presence flags |
| MetadataGrammar.TextExact | src/frame.rs:932-942 | the same for a length-prefixed string: valid UTF-8 shorter than 2^32 bytes |
| MetadataGrammar.UuidExact | src/frame.rs:716-717 | the same for the frame id; only valid UUIDs are accepted |
| MetadataGrammar.OptionalUuidExact | src/frame.rs:894-906 | the same for the optional request id |
| MetadataGrammar.OptionalTextExact | src/frame.rs:908-917 | the same for an optional string |
| MetadataGrammar.OptionalCodeExact | src/frame.rs:919-930 | the same for the optional communication status; only known codes are accepted |
| MetadataGrammar.MessageTypeExact | src/frame.rs:960-980 | the same for the message type byte: reader and writer are inverse and unknown bytes are refused |
| MetadataGrammar.PriorityExact | src/frame.rs:982-1008 | the same for the priority byte |
| MetadataGrammar.EncodingExact | src/frame.rs:780-808 | the same for a standard or custom payload encoding |
| MetadataGrammar.OptionalEncodingExact | src/frame.rs:735-744 | the same for the optional payload encoding |
| MetadataTheorems.PrintedParses | src/frame.rs:715-778 | decoding a printed block followed by any bytes gives the metadata and stops exactly at the end of the block |
| MetadataTheorems.ParsedWasPrinted | src/frame.rs:715-778 | whatever is decoded from any bytes was printed from the decoded value, up to the spelling of the two URIs; the spellings are returned as witnesses |
| MetadataTheorems.AcceptedIffPrinted | src/frame.rs:715-778 | a block is accepted with a given meaning if and only if the metadata is valid and the block is its fields in order with some accepted spelling of source and sink |
| MetadataTheorems.MetadataRoundTrip | src/frame.rs:684-778 | decoding an encoded block gives back every field, including the absent sink that is written as an empty string |
| MetadataTheorems.EncodingIsInjective | src/frame.rs:684-713 | two encodable metadata values have the same block only if they are equal |
| MetadataTheorems.BlockInBytes | src/frame.rs:684-863 | the encoded block in bytes: the fields in order, the values 1-4 and 0-6 of the two enumerations, the presence flags, the widths, and four zero bytes for an absent sink |
| MetadataTheorems.ParseExtends | src/frame.rs:865-954 | what has been decoded does not depend on the bytes behind it |
| MetadataTheorems.AcceptedIsPrefixFree | src/frame.rs:715-778 | no accepted block has an accepted proper prefix or proper extension |
| MetadataTheorems.EqualMetadataDiffersInUriText | src/frame.rs:715-778 | two accepted blocks with equal metadata are the same fields and can differ only in the text of the source and sink URIs |
| MetadataCodec.WriteU64 | src/frame.rs:810-812 | appends the eight little-endian bytes and nothing else |
| MetadataCodec.WriteOptionalU32 | src/frame.rs:814-822 | appends the flag and the word of an optional field |
| MetadataCodec.WriteOptionalUuid | src/frame.rs:824-833 | appends the flag and both halves of an optional UUID |
| MetadataCodec.WriteOptionalString | src/frame.rs:835-844 | appends the flag and the string, or fails when the string is too long for its length field |
| MetadataCodec.WriteOptionalCode | src/frame.rs:846-854 | appends the flag and the status byte |
| MetadataCodec.AppendString | src/frame.rs:856-863 | appends length and bytes; fails exactly when the length does not fit 32 bits |
| MetadataCodec.EncodePayloadEncoding | src/frame.rs:780-793 | appends the encoding; fails exactly when one of its strings is too long |
| MetadataCodec.EncodeOptionalEncoding | src/frame.rs:701-706 | appends the presence flag and the encoding |
| MetadataCodec.EncodeMetadata | src/frame.rs:684-713 | the push-by-push encoder returns exactly the printed block, and fails exactly when a string does not fit its length field |
| MetadataCodec.TakeBytes | src/frame.rs:944-954 | the cursor advances by the requested length or fails |
| MetadataCodec.TakeU8 | src/frame.rs:865-871 | the cursor gives one byte or fails at the end |
| MetadataCodec.TakeU64 | src/frame.rs:873-876 | the cursor reads what the grammar of the 64-bit field says and advances behind it |
| MetadataCodec.TakeString | src/frame.rs:932-942 | the same for a string |
| MetadataCodec.TakeOptionalU32 | src/frame.rs:878-892 | the same for an optional word |
| MetadataCodec.TakeUuid | src/frame.rs:716-717 | the same for the id |
| MetadataCodec.TakeOptionalUuid | src/frame.rs:894-906 | the same for the request id |
| MetadataCodec.TakeOptionalString | src/frame.rs:908-917 | the same for an optional string |
| MetadataCodec.TakeOptionalCode | src/frame.rs:919-930 | the same for the communication status |
| MetadataCodec.DecodePayloadEncoding | src/frame.rs:795-808 | the same for a payload encoding |
| MetadataCodec.TakeOptionalEncoding | src/frame.rs:735-744 | the same for the optional payload encoding |
| MetadataCodec.TakeSource | src/frame.rs:721-723 | reads a string and parses it as URI; both can fail |
| MetadataCodec.TakeSink | src/frame.rs:724-734 | reads a string; empty means no sink, anything else must parse as URI |
| MetadataCodec.TakeMessageType | src/frame.rs:718 | reads a known message type byte or fails |
| MetadataCodec.TakePriority | src/frame.rs:719 | reads a known priority byte or fails |
| MetadataCodec.DecodeMetadata | src/frame.rs:715-778 | the cursor-driven decoder returns exactly what the grammar says of the whole input, trailing bytes refused; no input makes it go out of bounds |
| FrameLayout.OffsetIsFirstAligned | src/frame.rs:649-666 | the payload offset is the first place behind header and metadata whose address is aligned, with less than one alignment of padding; it fails only for a bad alignment or when no 64-bit place exists |
| FrameLayout.PlanGrantsExactly | src/frame.rs:452-490 | a header is granted at an offset if and only if that offset is the first aligned place and lengths, offset and frame end fit, without reference to the order of the checks |
| FrameLayout.RefusedWith | src/frame.rs:452-478 | a refusal is RESOURCE_EXHAUSTED exactly when there is a place for the payload and only the sample is too small for it; every other one is INVALID_ARGUMENT |
| FrameLayout.WritersGrantAlike | src/frame.rs:452-550 | both writers succeed on the same inputs with the same offset; their status codes differ exactly when the offset needs more than 32 bits and the frame does not fit either |
| FrameLayout.AlignedAfterMoveIff | src/frame.rs:649-666 | a frame copied to another address keeps its payload aligned if and only if the two addresses agree modulo the payload alignment |
| FrameLayout.AlignmentSurvivesRelocation | src/transport.rs:342-352 | the arithmetic of that promise: a requested alignment that is a power of two not above the sample alignment holds at every multiple of the sample alignment, with less than one alignment of padding and no address leaving 64 bits |
| FrameLayout.ReadFrameHeader | src/frame.rs:593-647 | on every byte string it either returns a payload range inside the sample and behind header and metadata, or refuses, and then with INVALID_ARGUMENT; what exactly it accepts is the next row |
| FrameLayout.AcceptsExactly | src/frame.rs:593-647 | a header is accepted, with a given meaning, if and only if there are twenty bytes with magic 55 4C 4F 4C and version 1, the announced block is a printed block of the metadata, the length and offset are those of the header, and the payload lies behind the block and inside the sample |
| FrameLayout.ReaderIgnoresTheRest | src/frame.rs:593-647 | the result depends only on the sample length, bytes 0-4, bytes 8-19 and the announced metadata bytes |
| FrameLayout.HeaderParts | src/frame.rs:478-488 | the written header, byte for byte: magic 55 4C 4F 4C, version 1, three zero bytes, the three lengths, the metadata, zero padding up to the payload |
| FrameLayout.WrittenFrameReads | src/frame.rs:447-647 | reading a written frame gives back metadata, offset and length, whatever the payload and tail bytes are |
| FrameLayout.FrameParts | src/frame.rs:96-113 | a complete sample is the header image, the payload at its offset, and zeros behind it |
| FrameLayout.LeasedExactly | src/frame.rs:358-371 | a sample becomes a lease if and only if its header is accepted and the library accepts its metadata and payload; the lease holds that sample and exactly that metadata and range |
| FrameLayout.FrameBecomesLease | src/frame.rs:358-371 | a complete frame becomes a lease on exactly its metadata and payload, unless the library refuses that frame |
| FrameWriter.HeaderLaid | src/frame.rs:481-488 | the six partial writes over a blank prefix add up to the header image and touch nothing behind it |
| FrameWriter.HeaderCellsLaid | src/frame.rs:521-528 | the same six writes through initialised cells give the cells of the same header image |
| FrameWriter.WriteFrameHeader | src/frame.rs:447-490 | on success the bytes before the payload are the header image and everything from the payload on is untouched; on failure nothing changed |
| FrameWriter.InitializeUninitRange | src/frame.rs:552-567 | zeroes exactly the range, or fails on a bad range without a change |
| FrameWriter.WriteInitialized | src/frame.rs:569-591 | an initialised view is made only of a prefix in which every byte is initialised, and a write through it keeps that |
| FrameWriter.WriteFrameHeaderUninit | src/frame.rs:492-530 | on success prefix and tail are initialised with the bytes of the other writer over a zeroed sample and the payload cells are untouched; on failure nothing changed |
| Loans.LoanGrant | src/transport.rs:339-356 | a granted loan has its whole frame inside the sample |
| Loans.GrantedExactly | src/transport.rs:339-356 | a loan is granted at an offset if and only if the alignment is a power of two not above the sample alignment, the metadata can be encoded, the offset is the first aligned place, and lengths, offset and frame end fit |
| Loans.GrantedLoanStaysAligned | src/transport.rs:339-356 | for a validated configuration, the payload of every granted loan is aligned as requested wherever the sample lives at its own alignment |
| Loans.NewTxLoan | src/frame.rs:96-113 | a new loan is a complete frame with a zeroed payload, or fails as the writer fails |
| Loans.LolaTxLoan.Write | src/frame.rs:216-225 | a write through the payload view changes only the payload, and the sample stays a complete frame |
| Loans.LolaTxLoan.IntoVec | src/frame.rs:138-143 | the sent bytes are the frame of the loan's metadata and current payload |
| Loans.ZeroAndLay | src/frame.rs:116-130 | zeroing a sample and laying the header leaves a complete frame with a zeroed payload, or fails as the writer fails |
| Loans.InitialisedBytes | src/frame.rs:96-143 | after any series of writes an initialised loan holds the complete frame of its metadata and the payload those writes leave |
| Loans.NewUninitTxLoan | src/frame.rs:159-177 | a new uninitialised loan has every byte outside its payload range initialised, and only payload bytes can be uninitialised |
| Loans.LolaUninitTxLoan.Write | src/frame.rs:247-270 | a write through the uninitialised view changes only payload cells |
| Loans.LolaUninitTxLoan.AssumePayloadInit | src/frame.rs:272-320 | once the payload cells are initialised every byte of the sample is, and the converted loan is a complete frame over the same bytes |
| Loans.LastWriteWins | src/frame.rs:216-225 | after any series of writes each payload byte is the one the last write covering it put there |
| Loans.UncoveredStays | src/frame.rs:216-225 | a payload byte that no write covers stays as it was |
| Loans.UninitialisedBytes | src/frame.rs:159-320 | the same for an uninitialised loan, once the writes cover its payload |
| Loans.LoanWriteRead | src/transport.rs:339-356 | loan, any series of payload writes, then read: granted exactly when the plan grants it, and what is read is the loan's metadata, offset, length and last payload |
| Loans.SamePayloadSameBytes | src/frame.rs:96-177 | on equal requests both kinds of loan are granted or neither, and after the same series of writes that covers the payload the samples are equal at every byte, whatever the uninitialised memory held |
| PullQueue.FirstIndex | src/transport.rs:204-208 | the position found is the first with the property, or the length when there is none |
| PullQueue.RetainOneMore | src/transport.rs:225-257 | retaining skipped frames one by one keeps the newest `capacity` of all of them and counts the rest as dropped |
| PullReceive.SearchGoesOn | src/transport.rs:389-405 | at every point of the search, it is at its end, or the next sample ends it with the result of the one-piece receive, or that sample is retained, or it is refused with the loss of that sample only |
| PullReceive.FilterAccepts | src/transport.rs:510-519 | a filter accepts a frame whose source matches and, if a sink is asked for, whose sink is there and matches; it rejects a frame for failing on one of these and for nothing else |
| PullReceive.FanOutDelivers | src/transport.rs:167-178 | one delivery for each registration whose filter takes the frame, in registration order, with the positions as witness |
| PullReceive.UTransportLola.Build | src/transport.rs:66-83 | a transport is built, empty, exactly from a usable configuration; any other is refused with INVALID_ARGUMENT |
| PullReceive.UTransportLola.SendValidatedZeroCopy | src/transport.rs:364-370 | a sent sample goes to the end of the FIFO |
| PullReceive.UTransportLola.PopQueuedPullSample | src/transport.rs:200-211 | the oldest retained match is removed and returned |
| PullReceive.UTransportLola.QueuePullSample | src/transport.rs:213-257 | a mismatch is retained, dropped, or refused according to capacity and policy, with its counter; the queue never exceeds the capacity |
| PullReceive.UTransportLola.ReceiveValidatedZeroCopy | src/transport.rs:378-405 | the receive leaves the state and returns the result of the one-piece form; in terms of URI matching alone, what it returns has a matching source and, if asked for, a matching sink, and NOT_FOUND means that every readable frame that was there fails on one of them |
| PullReceive.UTransportLola.SearchAndReceive | src/transport.rs:384-405 | the searching loop does in steps what the one-piece receive says |
| PullReceive.UTransportLola.RegisterListener | src/transport.rs:416-436 | an equal registration is refused with ALREADY_EXISTS; otherwise it is appended, registrations stay distinct, and the answer is that of the task start |
| PullReceive.UTransportLola.UnregisterListener | src/transport.rs:439-457 | exactly the named registration is removed, or NOT_FOUND |
| PullReceive.UTransportLola.PollListenerFrames | src/transport.rs:157-179 | a poll takes the oldest pending sample and makes exactly one delivery of it to each registration with a matching source and, if asked for, a matching sink, in registration order; an unreadable sample is taken and reported |
| PullTheorems.ReceiveOnOneList | src/transport.rs:200-257 | a receive against the plain list of everything retained and pending, unreadable samples included: it takes out and returns the first entry it can end at or reports NOT_FOUND, order kept; on overflow the oldest entries are lost and counted, or under the rejecting policy exactly the entry behind the capacity |
| PullTheorems.ReceiveTakesOldest | src/transport.rs:383-405 | a successful receive returns the oldest frame that matches, among retained and pending ones |
| PullTheorems.ReceiveKeepsOrder | src/transport.rs:213-257 | a receive with any filter never reorders the frames matching any other filter |
| PullTheorems.FailureMakesProgress | src/transport.rs:225-238 | a receive that fails other than with NOT_FOUND has consumed a pending sample, and under the rejecting policy keeps every retained frame in order |
| PullTheorems.Retry | src/transport.rs:389-405 | retrying ends in a match or NOT_FOUND after at most one call more than there are pending samples |
| PullTheorems.FanOutReachesMatching | src/transport.rs:157-179 | a frame is delivered to exactly the listeners with a matching registration |
| Sequences.SubsequenceEmbeds | src/transport.rs:213-257 | what "never reorders" means above: the frames still there sit at strictly increasing positions of those before |
| PullConcurrency.StepKeeps | src/transport.rs:200-257 | every lock-held region of every call keeps the ledger of samples true |
| PullConcurrency.Conservation | src/transport.rs:364-406 | over every interleaving of sends, receives and polls each sent sample is in exactly one place and really there, the counters count the dropped and rejected ones, and the queue stays within its capacity |
| PullConcurrency.Balance | src/transport.rs:213-257 | the number of sends is pending + retained + dropped + rejected + in hand + given to callers + unreadable, the first four being the lengths and counters of the transport |
| PullConcurrency.PlacesMoveForward | src/transport.rs:200-257 | an event moves a sample only from pending to a hand or an end, from a hand to the queue or an end, from the queue to a caller or to the dropped |
| PullConcurrency.FinalPlacesStay | src/transport.rs:364-406 | what was returned, polled, dropped, rejected or refused stays so in every continuation of the run |
| PullConcurrency.GivenOnce | src/transport.rs:378-405 | however calls overlap, no sample is given to two calls, and a call is given only samples that were sent |
| PullOrder.EventOnOneList | src/transport.rs:200-257 | while receives do not overlap, with sends and polls anywhere, what is retained, in hand and pending is one list: a send appends to it and every other lock-held region takes out at most one sample and reorders none |
| PullOrder.ReceiveTakesFromOneList | src/transport.rs:378-405 | in every such run that list is in the order of sending, and a receive that ends returns its oldest match at that moment, or NOT_FOUND when it has none, or loses the one sample that is unreadable or behind the capacity |
| PullOrder.EveryRunIsInOrder | src/transport.rs:378-405 | in every such run, whatever was returned for a filter was sent before every match for it that is still in the list |
| PullOrder.FifoPerFilter | src/transport.rs:378-405 | per-filter order over whole runs with receives apart from each other and sends, listener polls and other filters between any two lock-held regions, under either policy: the send numbers returned for a filter ascend, and each is that of a sent frame whose source matches and, if asked for, whose sink matches |
| PullOrder.OverlapCanReorder | src/transport.rs:389-405 | overlapping receives can return the second frame sent before the first, for every capacity above zero and every two filters of which the other does not take that frame: a complete run |
| PullOrder.OverlapInOrder | src/transport.rs:389-405 | when a mismatch is never retained or every filter in use takes what this one takes, nothing it matches is ever retained and order holds under any overlap |
| PullOrder.OrderSurvivesOverlapIff | src/transport.rs:389-405 | order survives every overlap of receives with filters from a set if and only if the queue has no capacity or every filter of the set takes everything that this one takes |
| PullRefinement.ReceiveAlone | src/transport.rs:378-405 | the lock-held regions of a receive, when nothing else runs in between, add up to the one-piece receive: same state, same result |
| PullRefinement.PollAlone | src/transport.rs:157-179 | the same for a listener poll |
| PullRefinement.RegionGoesOn | src/transport.rs:389-405 | each lock-held region of a receive brings it one step closer to, or ends it with, what the one-piece receive does |
| PullRefinement.ReceiveWithSends | src/transport.rs:364-405 | a receive with any sends between its lock-held regions does the same as those sends followed by the receive in one piece |
| PullRefinement.InTurnIsReached | src/transport.rs:378-405 | every run of calls one after the other is a run of the step machine |
| PullRefinement.SerialRunShows | src/transport.rs:364-406 | such a run shows, after every call, the state of the sequential transport |
| PullRefinement.SerialResults | src/transport.rs:378-405 | and every receive of it ends as the sequential transport says |
| PullRefinement.SerialRunsAreApart | src/transport.rs:378-405 | such runs meet the condition of the order theorem, so the sequential transport keeps the order, too |
| ListenerTask.RegistrationsDistinct | src/transport.rs:422-434 | registrations stay pairwise distinct, even when calls overlap |
| ListenerTask.RegisterAddsItsOwn | src/transport.rs:416-436 | in every interleaving a register call appends the registration it was called with, or is refused because it is there |
| ListenerTask.UnregisterTakesItsOwn | src/transport.rs:439-463 | in every interleaving an unregister call takes out the registration it was called with and no other, or ends with NOT_FOUND because it is not there; it goes on to stop the task exactly when nothing is left |
| ListenerTask.TaskStaysIffRegistered | src/transport.rs:125-133 | a task that looks at the registry goes on exactly while something is registered |
| ListenerTask.EveryRunKeepsLapse | src/transport.rs:108-155 | over every interleaving, overlapping calls included, the slot polls or a register call is about to see to it, unless a lapse is open; and while one is open the slot does not poll |
| ListenerTask.ServedIffNoLapse | src/transport.rs:416-465 | between calls, overlapping or not, with something registered: the slot holds a polling task if and only if no lapse has been left open, where a lapse is a stop that runs while something is registered, or a register call that ends beside no polling task without starting one |
| ListenerTask.SerialLapse | src/transport.rs:108-123 | when calls do not overlap, a register call without a runtime is the only lapse |
| ListenerTask.SerialRunsKeepInv | src/transport.rs:108-155 | in every interleaving of task steps with register and unregister calls that do not overlap each other, a task is in the slot only while something is registered, as far as the call in progress has come |
| ListenerTask.TaskRunsIffRegistered | src/transport.rs:416-465 | between calls that do not overlap, the slot holds an unfinished task if and only if something is registered and the most recent register call that got to the slot did not fail; that task is not aborted and is the only such task |
| ListenerTask.RegisterStartsTaskIff | src/transport.rs:108-123 | a register call ends with a running task if and only if one was running or there is a runtime; otherwise it returns FAILED_PRECONDITION with its registration in place |
| ListenerTask.FailedRegisterStaysRegistered | src/transport.rs:422-436 | a register call that fails for want of a runtime leaves its registration behind, so trying again gives ALREADY_EXISTS: a concrete run |
| ListenerTask.OverlapCanLoseTheTask | src/transport.rs:458-463 | an unregister that overlaps a register can abort the task the new listener needs: a concrete interleaving |
| ListenerTask.OverlapCanMeetALeavingTask | src/transport.rs:108-134 | a register call can also take a task for running that has already found nothing registered and is about to finish: a concrete run without any stop while something is registered |
| PoolLifetime.FreeSlot | cpp/up_lola_bridge.cpp:320-336 | the scan finds the first slot not in use, or nothing when all are |
| PoolLifetime.AcquireGetsAFreeSlot | cpp/up_lola_bridge.cpp:320-336 | in every interleaving an acquire marks exactly the first free slot, and gets none exactly when all are in use |
| PoolLifetime.ReleaseGivesItsSlot | cpp/up_lola_bridge.cpp:338-362 | in every interleaving a release clears exactly its own slot, leaves the mutex, and then gives one reference back |
| PoolLifetime.SlotIsKept | cpp/up_lola_bridge.cpp:320-362 | a thread keeps the slot it got until it clears it |
| PoolLifetime.StepKeeps | cpp/up_lola_bridge.cpp:320-366 | every micro-step of every thread keeps the slot, lock and reference accounts |
| PoolLifetime.EveryRunKeepsInv | cpp/up_lola_bridge.cpp:296-367 | so do all interleavings of acquiring, releasing and dropping the transport |
| PoolLifetime.RefsCountSlots | cpp/up_lola_bridge.cpp:306-366 | the reference count is one for the transport, plus slots in use, less threads between flag and count, plus threads between clearing and giving back |
| PoolLifetime.NothingTouchesADeletedPool | cpp/up_lola_bridge.cpp:306-318 | the pool is deleted at most once, only when the transport is gone and no slot is in use, and no step follows in any thread |
| PoolLifetime.PoolDoesNotLeak | cpp/up_lola_bridge.cpp:459-469 | when transport and threads are done, the one deletion has happened |
| PoolLifetime.SlotsAreExclusive | cpp/up_lola_bridge.cpp:320-336 | no slot belongs to two threads, and at most one thread is inside the mutex |
| SlotMapping.OneBitIsPowerOfTwo | cpp/up_lola_bridge.cpp:71-74 | the bit trick accepts exactly the powers of two |
| SlotMapping.RoundingsAgree | cpp/up_lola_bridge.cpp:76-93 | the bridge's rounding and the Rust side's agree on value and failure |
| SlotMapping.CheckedMultiply | cpp/up_lola_bridge.cpp:109-117 | succeeds exactly when the product fits 64 bits, and is then the product |
| SlotMapping.SlotsInStorage | cpp/up_lola_bridge.cpp:149-165 | a slot's bytes lie inside the storage and slots start at multiples of the alignment |
| SlotMapping.SlotAddressAligned | cpp/up_lola_bridge.cpp:166-183 | a slot's address is aligned if and only if the storage is |
| SlotMapping.GenericSampleData | cpp/up_lola_bridge.cpp:119-184 | the mapping, check by check, gives the address of the order-free form, of which the next rows say what it is |
| SlotMapping.MapsExactly | cpp/up_lola_bridge.cpp:119-184 | on the LoLa path a loan is mapped if and only if the event is usable, the storage fits a word, the slot exists and the addresses are real and aligned, and then to the start of the storage plus slot times rounded size; the rounded size is given by its properties |
| SlotMapping.OtherLoansKeepTheirPointer | cpp/up_lola_bridge.cpp:124-140 | off that path a loan keeps its own aligned pointer; a bad or too strict alignment is refused on both |
| SlotMapping.MappedSlotIsInside | cpp/up_lola_bridge.cpp:149-184 | the returned address and its sample bytes lie inside the storage, at slot times rounded size from its start; nothing wraps, and the two later bounds tests could not have failed |
| SlotMapping.SlotsAreDisjoint | cpp/up_lola_bridge.cpp:119-184 | the addresses returned for two slots of one storage are a whole sample apart |
| SlotMapping.MappedDataIsAligned | cpp/up_lola_bridge.cpp:119-184 | whatever the mapping returns is a non-null pointer at the event's alignment |
| NativeBridge.TxLoanPool.Acquire | cpp/up_lola_bridge.cpp:320-336 | takes the first free slot and a reference, or changes nothing when all are in use |
| NativeBridge.TxLoanPool.Release | cpp/up_lola_bridge.cpp:338-362 | resets a slot in use and gives its reference back; a slot not in use is left alone |
| NativeBridge.LoanedSlotsPassTheCheck | src/sys.rs:423-455 | whatever a successful reserve hands out passes the Rust side's check of pointer, length and alignment |
| NativeBridge.CheckIsExact | src/sys.rs:423-455 | that check lets through exactly a non-null pointer of the expected length at a power-of-two alignment |
| NativeBridge.NativeTransport.HandlesDoNotOverlap | src/sys.rs:172-187 | as long as the runtime hands out no slot of a storage twice, the bytes behind different outstanding handles of one storage do not overlap; every method keeps the condition |
| NativeBridge.NativeTransport.HandlesAreSlots | src/sys.rs:172-187 | outstanding handles and slots in use correspond one to one, at most `maxSamples`, and a free slot exists exactly when there are fewer |
| NativeBridge.NativeTransport.Reserve | cpp/up_lola_bridge.cpp:686-719 | succeeds exactly when a slot is free, the runtime hands out a sample and it maps; every failure leaves the slots in use as they were, with its status |
| NativeBridge.NativeTransport.LoanSample | src/sys.rs:172-179 | a fresh handle for a newly reserved slot, under the same condition; failures leave the outstanding handles as they were |
| NativeBridge.NativeTransport.ReturnSlot | cpp/up_lola_bridge.cpp:735-741 | exactly the handle's slot is released, and the handle is empty afterwards |
| NativeBridge.NativeTransport.Send | src/sys.rs:181-187 | the slot is released once, whether or not the runtime takes the sample |
| NativeBridge.NativeTransport.DropLoan | src/sys.rs:358-366 | a handle that still has its slot releases it, once; dropping an empty handle does nothing |
| NativeBridge.NativeTransport.Destroy | cpp/up_lola_bridge.cpp:459-469 | outstanding loans stay valid, and the pool is deleted at once exactly when there are none |
| NativeBridge.NativeTransport.LayHeaderOrDrop | src/frame.rs:116-136 | the slot is zeroed and holds the complete frame, or the header does not fit and the slot is given back |
| NativeBridge.NativeTransport.LoanFrame | src/transport.rs:339-362 | a frame loan succeeds exactly when gate, reserve and header plan do, with each failure's status; no failure keeps a slot, and on success the slot holds the complete frame and the payload address has the requested alignment |
| Owned.TxLoanSpec | src/owned_benchmark.rs:154-167 | a request exists exactly when payload and encoding agree, and a present empty payload stays distinct from none |
| Owned.LeaseToOwnedFrame | src/owned_benchmark.rs:169-188 | the copied frame has the lease's metadata and payload, and a payload exactly when the metadata has an encoding |
| Owned.SendValidatedOwned | src/owned_benchmark.rs:54-69 | what is sent is the complete frame of the metadata and bytes; refusals send nothing |
| Owned.ReceiveValidatedOwned | src/owned_benchmark.rs:71-81 | the owned form of what the inner receive returns, with the same state change |
| Owned.SentFrameIsReceived | src/owned_benchmark.rs:54-81 | a sent frame is received with equal metadata and bytes under a matching filter, NOT_FOUND under another, and refused when the library refuses it |
| Owned.OwnedRoundTrip | src/owned_benchmark.rs:54-81 | send and receive over a fresh transport give back an equal frame, payload presence included |
| OwnedRegistry.EntryIndex | src/owned_benchmark.rs:110-124 | the wrapper's search finds the first entry for filters and listener |
| OwnedRegistry.StepKeeps | src/owned_benchmark.rs:83-131 | every region of every register and unregister call keeps each entry matched with an inner registration of its own; which entry it is, the two exact rows below say |
| OwnedRegistry.EveryRunKeepsInv | src/owned_benchmark.rs:83-131 | so do all interleavings, with other users of the inner transport and with missing runtimes |
| OwnedRegistry.EntriesHaveOwnInner | src/owned_benchmark.rs:83-102 | at every moment the entries have pairwise distinct inner registrations that are really there |
| OwnedRegistry.RegisterAddsItsEntry | src/owned_benchmark.rs:83-102 | in every interleaving a register call first adds a new inner registration with its own filter, then exactly one entry with its own filter and listener |
| OwnedRegistry.UnregisterTakesItsEntry | src/owned_benchmark.rs:104-131 | in every interleaving an unregister call takes out the first entry with its own filter and listener and leaves the others in order, or ends with NOT_FOUND because there is none; then exactly the inner registration of that entry is gone |
| OwnedRegistry.OthersLeaveEntries | src/owned_benchmark.rs:83-131 | nothing else touches an entry or a wrapped inner registration |
| OwnedRegistry.InnerCallsNeverMiss | src/owned_benchmark.rs:104-131 | an unregister that found its entry never gets NOT_FOUND from inside, and a register never ALREADY_EXISTS |

## Left out

- Loans.LolaUninitTxLoan.AssumePayloadInit: copies the initialised cells into a byte buffer, where the source reinterprets the same memory; that the bytes are the same ones in place is not captured.
- Loans.LoanWriteRead: is about the in-process backend; the native backend lays the same frame in its slot (`NativeBridge.NativeTransport.LoanFrame`), but writes and reads through the slot are not modelled.
- NativeBridge.NativeTransport.LoanFrame: takes the memory behind the slot as an array of its own; that the addresses of the slots keep these arrays apart is the subject of SlotMapping.
- PullReceive.UTransportLola.PollListenerFrames: models the in-process backend; the native one polls a subscriber per registration and discards a round's deliveries when one of them fails (src/transport.rs:180-196).
- PullReceive.UTransportLola.ReceiveValidatedZeroCopy: models the in-process backend; the native loop differs in where the next sample comes from (src/transport.rs:406-414).
- FrameLayout.AlignmentSurvivesRelocation: speaks of samples at their configured alignment; the byte vectors of the in-process backend are not always allocated there.
- PullConcurrency.Balance: holds while both counters are below their last value, where they saturate.
- NativeBridge.NativeTransport.Send: a loan must come from the same transport; the bridge refuses any other with INVALID_ARGUMENT and keeps its slot.
- NativeBridge.TxLoanPool.Release: is one sequential step; the interleaving of its micro-steps is the subject of PoolLifetime.
- Receive-side pool and handle: the same code as the transmit side (cpp/up_lola_bridge.cpp:369-440); PoolLifetime is about either.
- Overflow of the native reference count, and memory ordering of its atomic operations.
- The S-CORE runtime: service discovery, subscription, runtime and logging initialisation.
- Status texts, `last_mismatch_reason`, and the string conversions of the foreign function interface.
- Sleeps, cancellation and panics of the listener task, what listeners do, and a transport dropped under its task.
- The second failure path of sending a native loan, when its header magic is missing (src/frame.rs:146-155): a valid loan always has it, see `FrameLayout.HeaderParts`.
- The benchmark harness with its checksum, the examples, the build scripts.
