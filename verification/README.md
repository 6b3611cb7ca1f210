# ESPressio ESP-NOW: protocol models and proofs

A Dafny model of the message protocols that ESPressio runs over ESP-NOW, a radio whose frames hold
250 bytes and may be lost, repeated and reordered, with proofs of what those protocols keep.
`dafny verify dfyconfig.toml` verifies the whole project.

| files | subject |
|---|---|
| `Bytes`, `Chunks`, `Rounds`, `Tables`, `Sending` | little-endian fields, splitting a payload, counting complete rounds of pieces, linear tables, send loops |
| `CommandCodec`, `CommandFragments`, `ReceiptBitmap` | Command wire formats and the packed receipt bitmap |
| `CommandModel` | the Command endpoint as functions from state to state, with a log of everything a callback could observe |
| `CommandEndpoint` | the endpoint as the C++ writes it: tables erased from in place, a flat buffer, a bitmap; each method proved to be its function |
| `CommandRuns`, `AnswerCache`, `Reexecution`, `CommandTimeouts`, `Reassembly` | whole runs of one endpoint: conservation, duplicate suppression and when it ends, timeouts, any-order reassembly |
| `CommandProvenance`, `CommandSystem`, `CommandRoundTrip` | many endpoints on a lossy network: end-to-end safety, and progress when the frames get through |
| `CommandOperations` | what each call of the endpoint does, in plain times, codes, texts and limits; the round trip of a request completed later |
| `SecureFragments`, `SecureReceiver`, `SecureTransport` | Security envelopes: eight slots, reset on mismatch, round-robin recycling |
| `EventReceiver`, `EventTransport`, `EventOperations` | Event packets: expiry and oldest-first eviction, delivery of what arrives in time |
| `HandOff` | the bounded hand-off pools, submitter and worker interleaved |
| `StateDelivery`, `StateOperations` | latest-only State updates with acknowledgement and retry |
| `RadioModel`, `RadioRuns`, `RadioOperations`, `RadioTransport` | peer registry, native peer table, radio transitions, the interface each radio mode puts a peer on |
| `ClockExchange` | the four-timestamp clock exchange on atomics |
| `WireFormats` | which bytes each fragment format takes and where its fields are |

How the model reads the code:

- Callbacks (sender, policy, registry, inbound handler, observer, completion, `Protect`, `Unprotect`)
  are oracles: their answers are parameters, what they are given is recorded in a log. They do not
  re-enter the object that calls them. A sender that answers false has transmitted nothing.
- A completion callback or result observer that is not set is recorded as if it were.
- Time, the WiFi stack and the native ESP-NOW driver are parameters. Taking the driver down always
  empties its peer table; every other driver operation may fail.
- The C++ is followed where its documentation differs: COMMAND_INTEGRATION.md:272 says a conflicting
  duplicate fragment invalidates the reassembly, the code
  (src/ESPressio_ESPNowCommandEndpoint.hpp:219-221) rejects the fragment and keeps the reassembly.
- Sizes are unbounded, except where the code narrows: wire fields are cut to their width, identifiers
  and sequence numbers wrap, State retry times subtract modulo 2^64.
- Network runs (`CommandSystem`) have endpoints of one payload limit and message limits below 131080
  bytes, restarted any number of times, and fewer than 2^64 requests each.
- `UsableLimit` (a protocol payload limit below 65562) is what keeps the 16-bit fragment length from
  being cut; src/ESPressio_ESPNowCommandTransport.hpp:88-91 clamps the limit to 242.

Properties that do not hold of the code as such are stated with the condition under which they do:

- A request with more than 65535 elements of one kind does not decode to itself, since counts are cut to
  16 bits (`CommandCodec.RequestRoundTrip`, `CommandCodec.OverflowCounterexample`).
- A request is executed whenever its receiver does not recognise it
  (`Reexecution.ExecutedExactlyWhenUnknown`), and it is recognised afterwards exactly when it was handed
  over or its answer has a wire form (`Reexecution.RememberedExactlyWhenAnswerable`). A request whose
  answer is too long is executed at every delivery (`Reexecution.ExecutedAtEveryDelivery`); otherwise
  executions exceed one only by the number of times the answer was lost (`CommandRuns.AtMostOnceExecution`).
- A timeout answer is remembered only if it is encodable, the cache has a lifetime, and fewer requests than
  its capacity expired after it in the same sweep (`CommandTimeouts.LateAnswerIsCached`).
- A built fragment parses only if its length fits 16 bits
  (`CommandFragments.FrameParsesExactlyIfLengthFits`).
- A secure message with identifier zero completes only if it is one fragment (`SecureFragments.ZeroIdentifier`).
- Shutting the WiFi coordinator down forgets an outstanding rebuild, whatever the registry holds
  (`RadioRuns.DetachForgetsRebuild`); it keeps the guard exactly when none is outstanding
  (`RadioRuns.DetachGuardedExactly`, `RadioRuns.AvailabilityNeedsRebuild`).
- A State retry that is due and cannot be sent discards the pending record and leaves the subscriber behind
  (`StateDelivery.RefusedRetryLosesUpdate`, with a run from the start in `StateDelivery.RefusedRetryRun`). When
  a record is kept, and when a key is given up, is stated exactly (`StateDelivery.MaintainExact`,
  `StateDelivery.GivenUpExactly`).

## Model

| member | source | states |
|---|---|---|
| `CommandCodec.RequestRoundTrip` | src/ESPressio_ESPNowCommandProtocol.hpp:74-133 | decoding an encoded invocation gives back its path, values as text, named map and raw text if and only if all counts fit 16 bits |
| `CommandCodec.ShortRequestsCountsFit` | src/ESPressio_ESPNowCommandProtocol.hpp:250-283 | every request shorter than 131080 bytes has counts that fit, because each element costs at least two bytes |
| `CommandCodec.OverflowCounterexample` | src/ESPressio_ESPNowCommandProtocol.hpp:275-283 | that bound is sharp: a request of exactly that length encodes and does not decode |
| `CommandCodec.NormaliseNames` | src/ESPressio_ESPNowCommandProtocol.hpp:103-133 | what the receiver sees has one entry per named value, under its key, with its text |
| `CommandCodec.RequestsPrefixFree` | src/ESPressio_ESPNowCommandProtocol.hpp:103-133 | no accepted request payload is a proper prefix of another |
| `CommandCodec.ResponseReadsBack` | src/ESPressio_ESPNowCommandProtocol.hpp:137-170 | decoding inverts encoding for every 32-bit code and every message up to 65535 bytes |
| `CommandCodec.ResponseWritesBack` | src/ESPressio_ESPNowCommandProtocol.hpp:158-170 | every byte string that decodes as a response re-encodes to itself |
| `CommandCodec.DecodeRequestLoop` | src/ESPressio_ESPNowCommandProtocol.hpp:103-133 | the reader loops compute the request parser, failures included |
| `CommandCodec.DecodeResponseLoop` | src/ESPressio_ESPNowCommandProtocol.hpp:158-170 | the reader computes the response parser, failures included |
| `CommandCodec.EncodeRequestLoop` | src/ESPressio_ESPNowCommandProtocol.hpp:74-101 | the append loops build the request's wire form, and fail exactly when a text is too long |
| `CommandCodec.Reader.ReadText` | src/ESPressio_ESPNowCommandProtocol.hpp:326-333 | a length-prefixed text is read exactly when it is all there, and the offset moves past it |
| `CommandFragments.FrameParses` | src/ESPressio_ESPNowCommandProtocol.hpp:173-222 | parsing a built fragment whose length fits recovers type, request, total, index, count and exactly its bytes |
| `CommandFragments.FrameParsesExactlyIfLengthFits` | src/ESPressio_ESPNowCommandProtocol.hpp:173-222 | a built fragment parses if and only if its length fits the 16-bit field |
| `CommandFragments.BuildFragments` | src/ESPressio_ESPNowCommandProtocol.hpp:228-246 | as many frames as the count says, each the frame of its index |
| `ReceiptBitmap.MarkAdds` | src/ESPressio_ESPNowCommandEndpoint.hpp:388-394 | setting a bit adds exactly one index to the set the bitmap stands for |
| `ReceiptBitmap.EmptyIsEmpty` | src/ESPressio_ESPNowCommandEndpoint.hpp:377-386 | a cleared bitmap of the computed size stands for the empty set |
| `WireFormats.CommandFrameExactly` | src/ESPressio_ESPNowCommandProtocol.hpp:173-185 | a frame is taken if and only if magic, version, type, total, index, count and length are right at their offsets, least significant byte first, and these are the fields read |
| `WireFormats.SecureFrameExactly` | src/ESPressio_ESPNowSecurityProtocol.hpp:123-145 | the same for secure fragments: 15 bytes of header, at most 227 bytes of data, at most 8 fragments |
| `WireFormats.EventFrameExactly` | src/ESPressio_ESPNowEventTransport.hpp:265-284 | the same for Event fragments, with the packet limit and the offset inside the packet |
| `WireFormats.ResponseLayout` | src/ESPressio_ESPNowCommandProtocol.hpp:137-156 | a response is the flag, the code in two's complement, the length of the text and the text, at offsets 0, 1, 5 and 7 |
| `WireFormats.RequestLayout` | src/ESPressio_ESPNowCommandProtocol.hpp:74-101 | the bytes of a request with one path element, one value, one named value and a raw text |
| `CommandEndpoint.CopyIsTake` | src/ESPressio_ESPNowCommandEndpoint.hpp:212-218 | copy into the flat buffer, bit and two counters together take one index into the received set; the counter stays the number of bits |
| `CommandEndpoint.Endpoint.TakeFragment` | src/ESPressio_ESPNowCommandEndpoint.hpp:211-229 | for any frame in bounds the stored buffer, bitmap and counters are those of the abstract reassembly, and a finished one is taken out |
| `CommandEndpoint.Endpoint.AcceptFragment` | src/ESPressio_ESPNowCommandEndpoint.hpp:179-229 | find or create a reassembly under the table bound, reject what does not fit or disagrees, else take the fragment |
| `CommandEndpoint.Endpoint.ReceiveFrame` | src/ESPressio_ESPNowCommandEndpoint.hpp:157-238 | the whole of `Receive`, for arbitrary bytes |
| `CommandEndpoint.Endpoint.Invoke` | src/ESPressio_ESPNowCommandEndpoint.hpp:130-153 | draws a non-zero identifier, sends, keeps the request pending or completes it with code 2 |
| `CommandEndpoint.Endpoint.Send` | src/ESPressio_ESPNowCommandEndpoint.hpp:396-410 | the frames of the payload in order, up to the first refusal |
| `CommandEndpoint.Endpoint.HandleRequestMessage` | src/ESPressio_ESPNowCommandEndpoint.hpp:480-541 | cached answer, request in progress, malformed request, policy refusal or execution, in this order |
| `CommandEndpoint.Endpoint.ExecuteRequest` | src/ESPressio_ESPNowCommandEndpoint.hpp:515-541 | hand-off within the inbound bound, codes 6 and 7 otherwise, or synchronous execution |
| `CommandEndpoint.Endpoint.HandleResponseMessage` | src/ESPressio_ESPNowCommandEndpoint.hpp:558-575 | the first pending request of that peer and identifier is taken out and completed |
| `CommandEndpoint.Endpoint.StoreDuplicate` | src/ESPressio_ESPNowCommandEndpoint.hpp:466-478 | a full cache loses its oldest entry, the new one goes last |
| `CommandEndpoint.Endpoint.SendResponseAndCache` | src/ESPressio_ESPNowCommandEndpoint.hpp:548-556 | an encodable answer is cached before it is sent, another one is neither |
| `CommandEndpoint.Endpoint.CompleteInbound` | src/ESPressio_ESPNowCommandEndpoint.hpp:242-260 | takes the inbound request out, reports it and answers it with the given result (see `CommandOperations.CompletionIsAnswered`); fails when there is none |
| `CommandEndpoint.Endpoint.SweepPending` | src/ESPressio_ESPNowCommandEndpoint.hpp:265-273 | the erase loop keeps, in order, exactly the requests younger than the request timeout and completes the others with code 4 |
| `CommandEndpoint.Endpoint.SweepInbound` | src/ESPressio_ESPNowCommandEndpoint.hpp:274-296 | the erase loop answers each expired request in turn |
| `CommandEndpoint.Endpoint.Update` | src/ESPressio_ESPNowCommandEndpoint.hpp:263-320 | the four sweeps together (see `CommandTimeouts.SweepExact`) |
| `CommandEndpoint.Endpoint.Shutdown` | src/ESPressio_ESPNowCommandEndpoint.hpp:91-109 | completes every pending request with code 3 and empties all tables |
| `CommandEndpoint.Endpoint.Initialize` | src/ESPressio_ESPNowCommandEndpoint.hpp:68-88 | shuts down first, then accepts exactly the usable configurations |
| `CommandRuns.RunKeeps` | src/ESPressio_ESPNowCommandEndpoint.hpp:130-320 | every run keeps the tables within their bounds, keys unique, inbound and cached keys disjoint, received indices below the count, and the accounts of requests and answers balanced |
| `CommandRuns.ReassembleKeeps` | src/ESPressio_ESPNowCommandEndpoint.hpp:179-229 | whatever the frame, reassembly keys stay unique, within the maximum, with no index at or above the count |
| `CommandRuns.ExactlyOnceCompletion` | src/ESPressio_ESPNowCommandEndpoint.hpp:91-153 | in every run completions plus pending occurrences of a request equal its submissions, which is one, under a non-zero identifier, before the counter wraps |
| `CommandRuns.AtMostOnceExecution` | src/ESPressio_ESPNowCommandEndpoint.hpp:480-556 | in every run policy, handler and registry each see a request at most once more often than its receiver lost track of it; it is recognised exactly when admissions outnumber losses |
| `Reexecution.ExecutedExactlyWhenUnknown` | src/ESPressio_ESPNowCommandEndpoint.hpp:487-541 | a complete request is admitted if and only if it is not recognised, and each callback sees it if and only if, in addition, the guards in front of that callback let it through |
| `Reexecution.RememberedExactlyWhenAnswerable` | src/ESPressio_ESPNowCommandEndpoint.hpp:515-556 | an unrecognised request is recognised afterwards if and only if it was handed over or its answer has a wire form within the message limit |
| `Reexecution.ExecutedAtEveryDelivery` | src/ESPressio_ESPNowCommandEndpoint.hpp:538-556 | a request whose answer has no wire form is run by the registry as often as its frame arrives |
| `CommandRuns.NoReexecutionWhileTracked` | src/ESPressio_ESPNowCommandEndpoint.hpp:487-495 | while the receiver recognises a request, no callback sees it again |
| `AnswerCache.AnswerOutlivesLaterAnswers` | src/ESPressio_ESPNowCommandEndpoint.hpp:466-495 | a freshly cached answer stays, unchanged, and its request reaches no callback, until the cache's capacity of later answers has been stored |
| `AnswerCache.AnswerLostExactlyAtCapacity` | src/ESPressio_ESPNowCommandEndpoint.hpp:466-478 | when nothing expires the answer is lost if and only if that many were stored |
| `Reassembly.AnyOrderReassembly` | src/ESPressio_ESPNowCommandEndpoint.hpp:157-238 | fragments in any order, repeated, mixed with any other calls and frames, yield exactly the payload, exactly each time the last missing index arrives |
| `CommandTimeouts.SweepExact` | src/ESPressio_ESPNowCommandEndpoint.hpp:263-320 | after `Update` exactly the entries of each of the four tables remain, in order, for which less than that table's own limit has gone by, by plain subtraction of times; and exactly one code 4 completion, one observer call and one cached code 8 answer were produced per expired entry, in order |
| `CommandTimeouts.ExpiredCannotComplete` | src/ESPressio_ESPNowCommandEndpoint.hpp:242-296 | a later `CompleteInbound` for an expired request fails and changes nothing |
| `CommandTimeouts.LateAnswerIsCached` | src/ESPressio_ESPNowCommandEndpoint.hpp:274-319 | the code 8 answer of an expired request is cached after the sweep if and only if it is encodable, the lifetime is positive and fewer than the capacity expired after it |
| `CommandTimeouts.LateAnswerable` | src/ESPressio_ESPNowCommandEndpoint.hpp:548-552 | the code 8 answer is encodable exactly for message limits of at least 48 bytes |
| `CommandProvenance.ApplySound` | src/ESPressio_ESPNowCommandEndpoint.hpp:130-320 | every call keeps each logged event justified by earlier ones: what is sent, completed, executed and cached has its cause in the log |
| `CommandSystem.RunOk` | src/ESPressio_ESPNowCommandEndpoint.hpp:130-320 | in every run of any number of endpoints on a network that loses, repeats and reorders, every endpoint's invariants hold and everything put together was sent as such |
| `CommandSystem.RequestArrivesIntact` | src/ESPressio_ESPNowCommandEndpoint.hpp:480-505 | a request put together anywhere was submitted by its sender, was sent in full, and decodes to the text-normalised invocation |
| `CommandSystem.ResponseIsGenuine` | src/ESPressio_ESPNowCommandEndpoint.hpp:396-575 | when A's request completes with a response and B has admitted it no more than once, B stored that result, and produced it for exactly the text-normalised invocation A submitted, or refused it for lack of capacity |
| `CommandSystem.ResponseIsBsAnswer` | src/ESPressio_ESPNowCommandEndpoint.hpp:480-575 | the same whenever all answers B stored for the request encode alike |
| `CommandSystem.FailedInvokeNeverExecutes` | src/ESPressio_ESPNowCommandEndpoint.hpp:130-153 | when `Invoke` failed to send, no run lets B admit the request or show it to policy, handler or registry |
| `CommandRoundTrip.DeliveredIsDispatched` | src/ESPressio_ESPNowCommandEndpoint.hpp:157-238 | once the last missing fragment arrives, in whatever order, the endpoint handles exactly the message that was sent |
| `CommandRoundTrip.DeliveredRequestIsAnswered` | src/ESPressio_ESPNowCommandEndpoint.hpp:480-556 | a delivered request that is not recognised and comes to an encodable verdict is cached, and every fragment of that answer leaves |
| `CommandRoundTrip.SynchronousVerdict` | src/ESPressio_ESPNowCommandEndpoint.hpp:497-540 | without policy and handler the verdict on a request as `Invoke` encodes it is the registry's result for the text-normalised invocation |
| `CommandRoundTrip.OneFrameDelivers` | src/ESPressio_ESPNowCommandEndpoint.hpp:164-177 | a message of one fragment is delivered by its one frame |
| `CommandRoundTrip.RequestIsAnsweredAgain` | src/ESPressio_ESPNowCommandEndpoint.hpp:487-489 | a request that arrives again gets its cached answer again, in full |
| `CommandRoundTrip.DeliveredResponseCompletes` | src/ESPressio_ESPNowCommandEndpoint.hpp:558-575 | a delivered response completes the request that waits for it with exactly the result that was encoded |
| `CommandRoundTrip.CallCompletesWithAnswer` | src/ESPressio_ESPNowCommandEndpoint.hpp:130-238 | when the frames of a request and of its answer get through, in any order and among other calls, while the request is pending, A completes it exactly once, with B's answer |
| `CommandOperations.CallCompletesWithLaterAnswer` | src/ESPressio_ESPNowCommandEndpoint.hpp:130-260 | the same for a request handed to the inbound handler and completed at any later time by `CompleteInbound`: the handler was given the text-normalised invocation, the whole answer left B, and A completes exactly once with that result |
| `CommandOperations.DeliveredRequestIsHandedOver` | src/ESPressio_ESPNowCommandEndpoint.hpp:515-535 | a delivered request that passes and finds room is given to the handler, and its entry is in the inbound table with the time of the call |
| `CommandOperations.CompletionIsAnswered` | src/ESPressio_ESPNowCommandEndpoint.hpp:242-260 | completing an inbound request with a result that has a wire form reports that result, caches it last with the time of the call, sends every frame of it to the requester, and removes that entry and no other |
| `CommandOperations.CompletionRefusedExactly` | src/ESPressio_ESPNowCommandEndpoint.hpp:242-250 | without an entry of that key, or uninitialised, completion fails and changes nothing |
| `CommandOperations.CompletionWithoutWireForm` | src/ESPressio_ESPNowCommandEndpoint.hpp:251-260 | a result too long for the wire is reported and the entry removed, but nothing is sent or cached |
| `CommandOperations.InvokeExactly` | src/ESPressio_ESPNowCommandEndpoint.hpp:130-153 | what `Invoke` does to counter, pending table and log in each case: refused, too large, sent and pending since this call, or not sent and completed with code 2 |
| `CommandOperations.InvokeSucceedsExactly` | src/ESPressio_ESPNowCommandEndpoint.hpp:130-153 | `Invoke` succeeds if and only if the endpoint is ready with room, the request encodes within the limits and the sender takes every frame |
| `CommandOperations.FramesInOrder` | src/ESPressio_ESPNowCommandEndpoint.hpp:396-410 | frame `i` of a message is the `i`-th thing sent as long as every earlier one was accepted; a refused one ends the sending, and sending succeeds when none is |
| `CommandOperations.TimedOutIsReported` | src/ESPressio_ESPNowCommandEndpoint.hpp:263-296 | every pending request at or past the request timeout is completed with code 4, every inbound one at or past the inbound timeout is reported with code 8, and no other |
| `CommandOperations.UnacceptableIsRefused` | src/ESPressio_ESPNowCommandEndpoint.hpp:157-170 | a frame that does not parse or announces more than the message limit is refused and changes nothing |
| `CommandOperations.MisfitIsRefused` | src/ESPressio_ESPNowCommandEndpoint.hpp:179-209 | a fragment beyond its message, of another shape than its entry, or of a new message when the table is full is refused and changes nothing |
| `CommandOperations.FragmentIsTaken` | src/ESPressio_ESPNowCommandEndpoint.hpp:205-229 | a fragment that fits refreshes its entry's time; a new index is copied to its place and counted, a repeated one changes no byte and is refused if it differs |
| `CommandOperations.FirstFragmentOpens` | src/ESPressio_ESPNowCommandEndpoint.hpp:190-218 | the first fragment of a message opens an entry in its name that holds that fragment, with the time of the call |
| `CommandOperations.RequestInProgress` | src/ESPressio_ESPNowCommandEndpoint.hpp:491-495 | a request that is being executed is accepted again and has no effect |
| `CommandOperations.RefusalsExactly` | src/ESPressio_ESPNowCommandEndpoint.hpp:497-541 | the policy's refusal, the registry's result, and codes 5, 6 and 7 with their texts, each under its guard |
| `CommandOperations.ObserverHearsExactly` | src/ESPressio_ESPNowCommandEndpoint.hpp:497-541 | an unrecognised request is shown to the policy if there is one, then to the handler if there is one with room, else to the registry, and the observer gets the very answer of the policy that refused or the registry that ran |
| `CommandOperations.ResponseExactly` | src/ESPressio_ESPNowCommandEndpoint.hpp:558-575 | a response completes and removes exactly the pending request of its key with the decoded result, else changes nothing |
| `CommandOperations.InitializeExactly` | src/ESPressio_ESPNowCommandEndpoint.hpp:68-88 | exactly the configurations with a payload limit above 26 and seven non-zero settings are accepted, after a shutdown either way |
| `CommandOperations.ShutdownExactly` | src/ESPressio_ESPNowCommandEndpoint.hpp:91-109 | every pending request is completed in order with code 3 and its text, all tables are empty, counter and configuration stay |
| `CommandOperations.AnswerableExactly` | src/ESPressio_ESPNowCommandEndpoint.hpp:548-552 | a result has a wire form if and only if its text has at most 65535 bytes and, with 7 more, fits the message limit |
| `CommandOperations.SendableExactly` | src/ESPressio_ESPNowCommandProtocol.hpp:187-196 | a payload has fragments if and only if it is not empty, below 2^32 bytes and within 65535 times the room of a fragment, and then as many as cover it |
| `SecureFragments.DecodeInvertsEncode` | src/ESPressio_ESPNowSecurityProtocol.hpp:82-145 | decoding an encoded fragment gives it back |
| `SecureFragments.DecodedIsEncoding` | src/ESPressio_ESPNowSecurityProtocol.hpp:123-145 | whatever decodes is the encoding of its fragment, up to the ignored flags byte |
| `SecureFragments.FragmentEnvelope` | src/ESPressio_ESPNowSecurityProtocol.hpp:151-178 | succeeds exactly for envelopes of 1 to 1816 bytes, with the frame of every piece in order |
| `SecureFragments.AcceptKeeps` | src/ESPressio_ESPNowSecurityProtocol.hpp:185-234 | every sound fragment is accepted, the counter counts the present parts, and the state is empty or in the fragment's name |
| `SecureFragments.CompleteFits` | src/ESPressio_ESPNowSecurityProtocol.hpp:215-222 | a complete set of fragments never exceeds the envelope limit: the oversize branch is not taken |
| `SecureFragments.AcceptPiece` | src/ESPressio_ESPNowSecurityProtocol.hpp:185-234 | a piece of a message with non-zero identifier is kept, or yields exactly the envelope when it was the last one missing |
| `SecureFragments.ZeroIdentifier` | src/ESPressio_ESPNowSecurityProtocol.hpp:197-213 | a message with identifier zero completes if and only if it is a single fragment |
| `SecureReceiver.HandleIsolates` | src/ESPressio_ESPNowSecureTransport.hpp:144-179 | whatever arrives, no two slots share a source and a non-zero identifier |
| `SecureReceiver.EnvelopesAreGenuine` | src/ESPressio_ESPNowSecureTransport.hpp:144-194 | for arbitrary streams, recycling included, every envelope handed to `Unprotect` is the in-order concatenation of fragments that arrived from one source with one identifier, count and protocol |
| `SecureReceiver.HonestEnvelopes` | src/ESPressio_ESPNowSecureTransport.hpp:144-194 | with honest senders every such envelope is the one sent under that source and identifier |
| `SecureReceiver.EnvelopeRestored` | src/ESPressio_ESPNowSecureTransport.hpp:144-194 | pieces in any order, repeated, among any other traffic that does not recycle the slot, yield exactly the envelope, exactly each time the last missing piece arrives |
| `SecureReceiver.NewMessageTakesSlot` | src/ESPressio_ESPNowSecureTransport.hpp:144-179 | a first fragment takes the first free slot, or with none free the one at the cursor modulo 8, which moves on; it holds that fragment alone and no other slot changes |
| `SecureTransport.Transport.Send` | src/ESPressio_ESPNowSecureTransport.hpp:69-128 | the streaming loop emits the frames of `FragmentEnvelope` in order up to the first refusal, under a fresh non-zero identifier |
| `SecureTransport.Transport.FindSlot` | src/ESPressio_ESPNowSecureTransport.hpp:144-154 | own slot, else first free slot, else the slot at the cursor, wiped |
| `SecureTransport.Transport.AcceptFragment` | src/ESPressio_ESPNowSecurityProtocol.hpp:185-234 | updates the slot in place and returns the envelope as specified |
| `SecureTransport.Transport.HandleFrame` | src/ESPressio_ESPNowSecureTransport.hpp:156-194 | decodes, finds the slot, accepts and hands non-empty envelopes on |
| `SecureTransport.StreamRestores` | src/ESPressio_ESPNowSecureTransport.hpp:96-127 | a fully accepted stream, received in order, makes the receiver hand on exactly the envelope, once |
| `EventReceiver.PieceParses` | src/ESPressio_ESPNowEventTransport.hpp:201-283 | what is sent for a piece parses back to it, with or without trailing bytes |
| `EventReceiver.HandleOk` | src/ESPressio_ESPNowEventTransport.hpp:265-390 | for arbitrary frames keys stay unique, the table within its maximum, the counter equal to the bits set and no bit at or above the count |
| `EventReceiver.EvictsLeastRecent` | src/ESPressio_ESPNowEventTransport.hpp:336-346 | eviction happens only in a full table and removes an entry no other was received before |
| `EventReceiver.BackedElsewhere` | src/ESPressio_ESPNowEventTransport.hpp:366-375 | writing one fragment's range leaves the range of every other index unchanged |
| `EventReceiver.PacketsAreGenuine` | src/ESPressio_ESPNowEventTransport.hpp:265-390 | for arbitrary traffic every range of a delivered packet holds the bytes of a fragment that arrived from that source with that identifier, count and length |
| `EventReceiver.HonestPackets` | src/ESPressio_ESPNowEventTransport.hpp:265-390 | with honest senders every delivered packet is the one sent |
| `EventReceiver.PacketRestored` | src/ESPressio_ESPNowEventTransport.hpp:265-390 | pieces in any order, repeated, among any traffic that does not come later than the timeout after the entry's last piece or evict the entry, deliver exactly the packet, exactly each time the last missing piece arrives |
| `EventOperations.PacketRestoredInTime` | src/ESPressio_ESPNowEventTransport.hpp:265-390 | the same from arrival times and room alone: if while a packet is partly there no fragment comes later than the timeout after its last piece, and no new packet finds the table full |
| `EventOperations.PacketDelivered` | src/ESPressio_ESPNowEventTransport.hpp:265-390 | on a new receiver, with no more packets arriving than the table has entries and pieces in time, each packet is delivered exactly each time its pieces became complete |
| `EventOperations.SweepExactly` | src/ESPressio_ESPNowEventTransport.hpp:316-326 | with room, an entry of another packet survives a fragment if and only if not `now > updated && now - updated > timeout` |
| `EventOperations.EvictionExactly` | src/ESPressio_ESPNowEventTransport.hpp:336-346 | a new packet in a full table costs exactly the entry that is oldest |
| `EventOperations.DisagreementDrops` | src/ESPressio_ESPNowEventTransport.hpp:361-364 | a fragment of another size or count than its live entry costs the packet that entry and delivers nothing |
| `EventOperations.LatePieceStartsOver` | src/ESPressio_ESPNowEventTransport.hpp:316-375 | a piece after the timeout is kept alone: the earlier pieces are gone |
| `EventTransport.Transport.SendToDestination` | src/ESPressio_ESPNowEventTransport.hpp:201-239 | the frames of a packet in order up to the first refusal; empty and oversized packets are refused |
| `EventTransport.Transport.FindOldest` | src/ESPressio_ESPNowEventTransport.hpp:338-344 | the first entry among the least recently received |
| `EventTransport.Transport.Expire` | src/ESPressio_ESPNowEventTransport.hpp:316-326 | exactly the entries with `now > updated && now - updated > timeout` are removed, in order |
| `EventTransport.Transport.TakeFragment` | src/ESPressio_ESPNowEventTransport.hpp:361-389 | a disagreeing entry is erased, a new fragment copied and counted, a complete packet delivered |
| `EventTransport.Transport.HandleFrame` | src/ESPressio_ESPNowEventTransport.hpp:265-390 | the whole handler, for arbitrary bytes (see `EventOperations.PacketDelivered`) |
| `HandOff.NoCellLeaks` | src/ESPressio_ESPNowAsyncProtocolHandler.hpp:79-113 | in every interleaving, under both policies, cells in use are those queued, executing and in hand; with two more cells than the queue is deep the "no free cell" branch is not taken |
| `HandOff.ReleasedOnceHandledInOrder` | src/ESPressio_ESPNowAsyncProtocolHandler.hpp:235-254 | every submission that got a cell is released exactly once or still owned; the handler gets the submitted values in submission order, each at most once, and every accepted one under Reject |
| `HandOff.QuietPoolIsEmpty` | src/ESPressio_ESPNowAsyncProtocolHandler.hpp:90-113 | with nothing queued, held or running all cells are free and everything was released once |
| `HandOff.RoomAccepts` | src/ESPressio_ESPNowAsyncProtocolHandler.hpp:235-254 | with room in the queue a submission is appended under either policy |
| `HandOff.FullRejects` | src/ESPressio_ESPNowAsyncProtocolHandler.hpp:235-254 | on a full queue Reject refuses the newcomer, whose cell is free again, and keeps the queue |
| `HandOff.FullDropsOldest` | src/ESPressio_ESPNowAsyncProtocolHandler.hpp:178-254 | on a full queue DropOldest gives up the queued submission with the lowest number, frees its cell and appends the newcomer; the others stay in order |
| `HandOff.WorkerTakesOldest` | src/ESPressio_ESPNowAsyncProtocolHandler.hpp:95-113 | one turn of the worker handles the oldest queued submission with the value submitted and frees its cell |
| `HandOff.Storage.AcquireCell` | src/ESPressio_ESPNowEventTransport.hpp:168-186 | takes and fills the first free cell, or none |
| `HandOff.Storage.ReleaseCell` | src/ESPressio_ESPNowEventTransport.hpp:188-199 | frees the cell, wiping it where the pool does; other positions are ignored |
| `StateDelivery.NewestHeldOrPending` | src/ESPressio_ESPNowStateTransport.hpp:149-364 | in every run each subscriber and type has at most one pending record, carrying the newest queued version; that version is pending or held if and only if the key is not given up or the subscriber holds it already |
| `StateDelivery.GivenUpExactly` | src/ESPressio_ESPNowStateTransport.hpp:149-464 | a step gives a key up exactly when its subscriber leaves, an update finds no record, or a retry that is due is not made; an update that finds a record takes it up again |
| `StateDelivery.MaintainExact` | src/ESPressio_ESPNowStateTransport.hpp:452-464 | maintenance keeps a record if and only if its key is subscribed and it is not due, or its retry is current, encodes and is sent |
| `StateDelivery.RefusedRetryLosesUpdate` | src/ESPressio_ESPNowStateTransport.hpp:460-463 | a due retry the radio refuses leaves a subscriber that is behind subscribed, with nothing pending |
| `StateDelivery.RefusedRetryRun` | src/ESPressio_ESPNowStateTransport.hpp:460-463 | such a run from the start: published, subscribed, refused, lost |
| `StateOperations.MaintainedExactly` | src/ESPressio_ESPNowStateTransport.hpp:452-464 | the fate of every record, by plain subtraction of times (with 2^64 added if the clock is behind): dropped with its subscriber, left alone before the interval is over, retried with the current version and a new time, or dropped |
| `StateOperations.UpdateDelivered` | src/ESPressio_ESPNowStateTransport.hpp:285-364 | queued, sent, applied and acknowledged, a current version is held by the subscriber with nothing pending for it, and no other key's record comes or goes |
| `StateOperations.EnqueueExactly` | src/ESPressio_ESPNowStateTransport.hpp:149-303 | an update is pending in the key's own or a free record with the current version and time, sent or not; with neither nothing is sent |
| `StateOperations.SubscribeExactly` | src/ESPressio_ESPNowStateTransport.hpp:405-409 | subscribing adds the subscription and queues the current version, which is pending if there is a record for it |
| `StateOperations.ArriveExactly` | src/ESPressio_ESPNowStateTransport.hpp:306-347 | an update is applied if and only if it is new to the subscriber or newer and not refused, and acknowledged then and when it is a repeat |
| `StateOperations.AcknowledgeExactly` | src/ESPressio_ESPNowStateTransport.hpp:349-364 | an acknowledgement clears the record if and only if epochs agree and the revision is at least the record's |
| `StateOperations.DepartureExactly` | src/ESPressio_ESPNowStateTransport.hpp:380-432 | unsubscribing ends the subscription and record of one key, leaving those of one device, and no others |
| `StateDelivery.AcknowledgeKeeps` | src/ESPressio_ESPNowStateTransport.hpp:349-364 | an acknowledgement clears a record only when its subscriber holds that very version |
| `StateDelivery.MaintainKeeps` | src/ESPressio_ESPNowStateTransport.hpp:452-464 | maintenance keeps the delivery invariant record by record |
| `StateDelivery.Transport.QueueSnapshot` | src/ESPressio_ESPNowStateTransport.hpp:255-303 | overwrites the key's record or takes a free one with the current version, then sends |
| `StateDelivery.Transport.FindOrFree` | src/ESPressio_ESPNowStateTransport.hpp:149-167 | the key's record, else the first free one, else none |
| `StateDelivery.Transport.HandleAcknowledgement` | src/ESPressio_ESPNowStateTransport.hpp:349-364 | clears the record exactly for the same epoch and a revision at least as new |
| `StateDelivery.Subscriber.HandleUpdate` | src/ESPressio_ESPNowStateTransport.hpp:306-347 | acknowledges exactly a version it then holds, newer or repeated; the store moves forward only |
| `StateDelivery.Transport.ClearPeer` | src/ESPressio_ESPNowStateTransport.hpp:389-393 | clears exactly the records of that device |
| `StateDelivery.Transport.MaintainPending` | src/ESPressio_ESPNowStateTransport.hpp:452-464 | drops records without a subscriber, retries those due, discards those whose retry fails |
| `RadioRuns.RadioTransaction` | src/ESPressio_ESPNowWiFiCoordinator.hpp:97-155 | from a transition's begin to its completion, scans, state changes, peer changes, sends and received frames do not touch the driver; the registry follows the changes and is exactly what a completing rebuild puts into the driver |
| `RadioRuns.RebuildRestores` | src/ESPressio_ESPNowWiFiCoordinator.hpp:158-219 | whenever an outstanding rebuild is made good, the native addresses are exactly the registry's |
| `RadioRuns.AvailabilityNeedsRebuild` | src/ESPressio_ESPNowWiFiCoordinator.hpp:97-219 | over every run, availability does not return after invalidation before a successful rebuild, unless the coordinator was shut down in between |
| `RadioRuns.DetachForgetsRebuild` | src/ESPressio_ESPNowWiFiCoordinator.hpp:46-53 | for every registry, after a shutdown with a rebuild outstanding and the driver up, the next usable state makes sending available with the rebuild still outstanding |
| `RadioRuns.DetachGuardedExactly` | src/ESPressio_ESPNowWiFiCoordinator.hpp:46-53 | a shutdown keeps the guard if and only if no rebuild is outstanding |
| `RadioRuns.OffLeavesRebuildDue` | src/ESPressio_ESPNowWiFiCoordinator.hpp:165-174 | switching the radio off leaves a rebuild outstanding with the driver up |
| `RadioRuns.ExplicitInterfaceHolds` | src/ESPressio_ESPNowTransport.hpp:283-435 | in every run of public calls, a managed peer with an explicit interface that is present natively is on that interface |
| `RadioRuns.RebindPlacesPeers` | src/ESPressio_ESPNowTransport.hpp:736-748 | after a successful rebind every managed peer is present, explicit ones on their interface, the others on the binding's preferred one when concrete, and after a rebuild there is no other peer |
| `RadioOperations.BoundPeersPlaced` | src/ESPressio_ESPNowWiFiCoordinator.hpp:67-219 | once bound to a radio state, every managed peer is present on the interface it chose, else on the station interface in station mode, the access point interface in access point mode, with both the station if active and else the access point if active, else the stack's default; the binding carries the state's channel |
| `RadioOperations.WorkingDriverBinds` | src/ESPressio_ESPNowWiFiCoordinator.hpp:158-219 | with a driver that does as it is told binding succeeds, sending is available unless a scan was going on, and nothing is left due |
| `RadioOperations.TransitionEnds` | src/ESPressio_ESPNowWiFiCoordinator.hpp:97-140 | a transition shuts sending and empties the driver, ignores state changes, and ends available with exactly the registry in the driver |
| `RadioOperations.ScanEnds` | src/ESPressio_ESPNowWiFiCoordinator.hpp:128-155 | a scan shuts sending, its end opens it; a state change binds like a refresh |
| `RadioOperations.OffAndScanningShut` | src/ESPressio_ESPNowWiFiCoordinator.hpp:165-188 | off and scanning shut sending and leave driver and registry alone; only off marks native state invalid |
| `RadioOperations.RetrySucceeds` | src/ESPressio_ESPNowWiFiCoordinator.hpp:206-211 | a failed binding is tried again with a rebuild after a change of mode, channel or interface, and that makes sending available if the driver then works |
| `RadioOperations.RetriesOnlyOnChange` | src/ESPressio_ESPNowWiFiCoordinator.hpp:206-211 | without such a change there is no second try |
| `RadioOperations.AddPeerExactly` | src/ESPressio_ESPNowTransport.hpp:283-295 | a new peer goes to the interface it chose, else where it was last heard, else the binding's, else the default; it is managed if and only if suspended or programmed |
| `RadioOperations.AddPeerRefusedExactly` | src/ESPressio_ESPNowTransport.hpp:368-378 | a peer cannot be stored if and only if every record is in use for another address, and then adding it changes nothing |
| `RadioOperations.ReconcileExactly` | src/ESPressio_ESPNowTransport.hpp:722-734 | reconciling and reinitialising forget what was heard and put every managed peer on its chosen interface, else the binding's, else the default; reinitialising leaves no other peer |
| `RadioOperations.HeardPeerMoves` | src/ESPressio_ESPNowTransport.hpp:321-344 | a frame from a managed automatic peer is remembered as its interface and moves it there, unless suspended |
| `RadioOperations.RemovePeerExactly` | src/ESPressio_ESPNowTransport.hpp:820-834 | when removal succeeds neither registry nor driver has the peer and all others stay; when it fails nothing has changed |
| `RadioOperations.SendGate` | src/ESPressio_ESPNowTransport.hpp:841-883 | a send reaches the driver if and only if initialised, not suspended, available, to a non-zero address with at most 242 bytes |
| `RadioOperations.StartAndStop` | src/ESPressio_ESPNowTransport.hpp:570-657 | starting opens sending on the configured channel with an empty driver, stopping shuts it and forgets every peer and hint; each does nothing the second time |
| `RadioRuns.RebuildDoes` | src/ESPressio_ESPNowTransport.hpp:411-435 | a successful rebuild leaves the driver up with exactly the registry, each peer as configured |
| `RadioTransport.EspNowTransport.StoreManagedPeer` | src/ESPressio_ESPNowTransport.hpp:368-378 | overwrites the record of that address or takes the first free one |
| `RadioTransport.EspNowTransport.ReconcileManagedPeers` | src/ESPressio_ESPNowTransport.hpp:411-419 | programs every managed peer, one failure failing the whole |
| `RadioTransport.EspNowTransport.ApplyRadioBinding` | src/ESPressio_ESPNowTransport.hpp:736-748 | hints cleared, rebuild or reconcile, available only on success |
| `RadioTransport.EspNowTransport.Add` | src/ESPressio_ESPNowTransport.hpp:808-818 | stores, and programs unless suspended, forgetting the peer if that fails; keeps explicit peers on their interface |
| `RadioTransport.EspNowTransport.Remove` | src/ESPressio_ESPNowTransport.hpp:820-834 | forgets peer and hint when suspended or when the driver no longer has the peer |
| `RadioTransport.EspNowTransport.RememberPeerInterface` | src/ESPressio_ESPNowTransport.hpp:321-344 | records a hint for automatic peers only, and moves the native peer unless suspended |
| `RadioTransport.WiFiCoordinator.ApplyRadioState` | src/ESPressio_ESPNowWiFiCoordinator.hpp:158-219 | off, scanning, or binding with the rebuild and retry rules (see `RadioOperations.BoundPeersPlaced`) |
| `RadioTransport.WiFiCoordinator.OnTransitionBeginning` | src/ESPressio_ESPNowWiFiCoordinator.hpp:97-111 | suspends the driver, empties its peer table, shuts sending and marks native state invalid; keeps the availability guard |
| `RadioTransport.WiFiCoordinator.OnTransitionCompleted` | src/ESPressio_ESPNowWiFiCoordinator.hpp:114-125 | applies the new state, rebuilding if the transition suspended or anything invalidated the driver |
| `RadioTransport.WiFiCoordinator.OnStateChanged` | src/ESPressio_ESPNowWiFiCoordinator.hpp:128-140 | scanning shuts sending; otherwise ignored during a transition; keeps the availability guard |
| `ClockExchange.AtMostOneSample` | src/ESPressio_ESPNowClockSynchronizer.hpp:291-374 | in every interleaving of the atomic loads and stores, and for any responses, no sequence number yields two samples before the counter wraps |
| `ClockExchange.HonestSamples` | src/ESPressio_ESPNowClockSynchronizer.hpp:140-374 | with an honest reference and clocks at constant offsets every sample belongs to one request and one answer that were sent; T1 and T3 are the true times of sending, T2 and T4 the true arrivals late by exactly the time between the two clock readings, so T1 <= T4, T2 <= T3, T4 - T1 >= T3 - T2, and the measured time on the air is the true one plus those two reading times |
| `ClockExchange.RecoverBounds` | src/ESPressio_ESPNowClockSynchronizer.hpp:140-170 | the recovered time is the reading less the frame's age, between the frame's arrival and the reading of the clocks |
| `ClockExchange.RecoverExactly` | src/ESPressio_ESPNowClockSynchronizer.hpp:156-169 | the reading if the frame is not older than it, else the reading less the frame's age, and zero if that would be negative |
| `ClockExchange.RecoversArrival` | src/ESPressio_ESPNowClockSynchronizer.hpp:140-170 | on clocks at constant offsets the true arrival, late by exactly the time between the two readings, and the arrival itself when both are read at one instant |
| `ClockExchange.ExchangeCompletes` | src/ESPressio_ESPNowClockSynchronizer.hpp:218-374 | an undisturbed exchange yields exactly one sample, with the sequence drawn and the four timestamps, and leaves nothing pending |
| `ClockExchange.Synchronizer.RequestSynchronization` | src/ESPressio_ESPNowClockSynchronizer.hpp:520-589 | draw, publish, send, and withdraw on refusal; the attempt time is taken either way |
| `ClockExchange.Synchronizer.ProcessResponse` | src/ESPressio_ESPNowClockSynchronizer.hpp:291-374 | takes a response, whenever it arrived, exactly when it is the reference's and for the pending sequence, which it consumes; T4 is the arrival plus the client's offset plus the time between the readings |
| `ClockExchange.Synchronizer.ProcessRequest` | src/ESPressio_ESPNowClockSynchronizer.hpp:218-288 | answers only as reference and to a known peer, echoes sequence and T1; T2 is the arrival plus the reference's offset plus the time between the readings, T3 the time of answering |
| `ClockExchange.Synchronizer.Update` | src/ESPressio_ESPNowClockSynchronizer.hpp:593-624 | attempts, refused or not, are at least one interval apart |

## Left out

- Re-entrant callbacks: the endpoint's handler and observer may call back into it; the model has them return first.
- Allocation failure, memory policies, statistics, stack telemetry and `size_t` overflow of sums.
- ESP-IDF, WiFi and FreeRTOS: only the driver's peer table and its failures are modelled; frames received by the driver callback and its receive queue are not.
- The TaskExecutor behind the hand-off pools: taken to be a FIFO of the configured depth with one worker and, for DropOldest, a discard callback.
- Transport initialisation that fails part way (src/ESPressio_ESPNowTransport.hpp:555-637), and Shutdown racing with the hand-off worker.
- Cryptography, command parsing and execution, State values and their codecs, clock offset estimation: other repositories.
- State subscription intents and the State peer table (src/ESPressio_ESPNowStateTransport.hpp:129-147, 231-253, 366-378): stale subscription acknowledgements carry no generation, so little can be said of them.
- Changing the Event receiver while fragments are outstanding: the receiver is present or absent for a whole run.
- Peer liveness, the command-line handler, events and observers (src/ESPressio_ESPNowPeerLiveness.hpp, src/ESPressio_ESPNowCommandHandler.hpp, src/ESPressio_ESPNowTransportEventBridge.hpp): easy tables and forwarding.
- ClockExchange.HonestSamples: the client's clock is not adjusted while an exchange is under way.
