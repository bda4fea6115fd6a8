# Verification of nan0

nan0 carries protobuf messages over TCP and websocket connections. This project models the parts of
it whose correctness is decided by its own code, and proves properties of that model for every
input, every run and every interleaving. `dafny verify dfyconfig.toml` checks all of it.

## What is modelled

- **The wire.** `Bytes`, `Frames`, `Network`, `StreamDecoder`: the frame of preamble, type,
  HMAC size (when encrypted), size and payload; a connection as the list of what each underlying
  read finds (bytes, or an error); the buffered reader on top, with its 4096-byte buffer; the decoder
  that reads once per field, pads short reads with zeros and turns failed header reads into 0.
  `Fragmentation` takes one frame under every cutting, truncation and read error, `WholeFields` one of
  any size whose fields arrive whole, `ReceiveLoop` many frames and the loop that makes a new reader
  for each message, `Websocket` the whole-buffer decoder and its loop.
- **A wrapper's life.** `Loops` and `Lifecycle`: reader, writer, idle watcher, signaller and any
  number of callers of `Close` and `softClose` as a transition system over program counters, the
  mutex, the `closed` channel and the two shutdown channels; for the TCP wrapper and, with the order
  of its statements, the websocket one. `Progress`: what makes a wrapper's parts go on, and what alone
  makes them stop. `Handover`: two wrappers one after the other on the same raw connection. `Handshake`: a secure server and any number of clients. `IdleWatch`: the polling loop.
- **Registries and lists.** `Registry`: the builder's maps under every sequence of options.
  `Discovery`: the published definition and the strict matching. `LinkedLists`: Go's `container/list`
  to the pointer, with the damage an element removed after a clear does to it. `ServerLists`,
  `ServerRuns`: the server's two lists as objects and under every interleaving of listener, other
  adders, purge, closings, stream goroutine and reset. `EndToEnd` joins builders, discovery,
  handshake, wire and dispatch.

The protobuf runtime, AES-GCM (section 7 of NIST SP 800-38D), HMAC (section 2 of RFC 2104), RSA and
the 32-bit hash are function parameters; what is assumed of them stands in `requires` clauses
(`Sound`, `OpensOnly`, `LowBytes`, `CollisionFree`, `RsaInverts`). `OpensOnly` is the least that is
needed: among the stretches of one frame, the cipher opens the sealed payload and nothing else.
Message contents are a type name and a sequence of numbers; marshalling is arbitrary. Object methods
are proved equal to functions on values; the lemmas are about those functions, and the transition
systems use the same ones. The endless service loops are steps of the transition systems; the receive
loop is also a method, bounded by the pass at which the shutdown token is found.

## What the code does that its texts do not say

- A plain frame whose size field is the first to be cut, after nothing but zeros, decodes as an empty
  message of its type. `PlainFailSafeExactly` and `TruncatedFrameDelivers` say exactly when.
- A frame of more than 4096 bytes that arrives at once is an error and ends the connection
  (`OneArrivalDecodesIff`), and of two frames in one arrival the second is lost
  (`CoalescedFrameIsLost`).
- In encrypted mode a message that cannot be marshalled is reported as sent
  (`UnmarshalableMessageIsSilentlyDropped`).
- The comment at nan0Interfaces.go:31 promises the time of the last transmission or reception; the
  code moves it on TCP sends only, and never for websockets (`WatchTcp`, `WatchWs`).
- After a `softClose`, `Close` leaves the connection open: a server that rejects a handshake does not
  close it (`AbandonedStaysOpenIffSoftCloseCameFirst`).
- A listener that meets the cap stops for good (`StoppedForGood`).
- A connection can be lost: open and no longer listed. `LostIff` says exactly when, for every connection
  and every run. One first listed while a reset is under way is lost unless it is closed before that
  reset ends (`LateAddIsDropped`).
- The stream goroutine holds an element from one tick to the next. If the list is cleared in between,
  taking the element drops the length to -1: the list shows the element's predecessor, or its own root,
  as its back (`LateRemovalShows`, `LateTakeUnsettlesTheList`), and what was added in between is not
  shown (`LateRemovalHides`). `StreamInStepIff` says exactly when the list is in step.
- A published list that repeats a name can match a builder with other types (`RepeatedNameMatches`).

## Model

| member | source | states |
|---|---|---|
| Bytes.SizeWriter | nan0Util.go:46-50 | the four bytes stand, big-endian, for the size modulo 2^32 |
| Bytes.SizeReader | nan0Util.go:39-41 | the big-endian number of four bytes; its low byte is the last one |
| Bytes.SizeReaderInvertsWriter | nan0Util.go:39-50 | reading back a written size gives it modulo 2^32 |
| Bytes.SizeWriterInvertsReader | nan0Util.go:39-50 | writing back a read size gives the same bytes |
| Bytes.ShortPreambleIsInvalid | nan0Util.go:258-276 | a zero-padded read passes for the preamble only if it is the whole preamble |
| Frames.DecryptProtobufAccepts | encryption.go:17-40 | anything sealed under the encryption key is accepted only with a tag size of 32, if its first 32 bytes are the tag that the receiver's own key gives for the rest and the rest unmarshals |
| Frames.TagDecides | encryption.go:123-131 | with any 32 bytes in the place of the tag, accepted iff they are the tag |
| Frames.PutMessageInConnection | nan0Util.go:158-199 | exactly the frame, or its accepted front on a refused write, or nothing, is appended to the connection; success iff a frame exists and was taken whole; an unregistered type is refused and nothing written |
| Frames.UnknownTypeIsRefused | nan0Util.go:165-169 | the put of a message of an unregistered type fails and writes nothing |
| Frames.FrameOfIff | nan0Util.go:158-199 | a message has a frame iff its type is registered and, in plain mode, it can be marshalled; and the frame is the preamble, the id, the sizes and the payload |
| Frames.UnmarshalableMessageIsSilentlyDropped | encryption.go:43-67 | a message that cannot be marshalled puts nothing on the connection, and counts as sent iff the mode is encrypted |
| Network.BufferedReader.Read | nan0.go:62 | the buffered read: at most one underlying read, only on an empty buffer, large reads direct |
| Network.ReadConserves | nan0Util.go:224-239 | a read hands over the next bytes of the stream and neither loses nor reorders any, whatever the arrivals |
| StreamDecoder.IsPreambleValid | nan0Util.go:258-276 | end of stream, accepted and invalid are told apart by one padded read |
| StreamDecoder.ReadSizeField | nan0Util.go:313-322 | one read, zero-padded; 0 on any error |
| StreamDecoder.GetMessageFromConnection | nan0Util.go:206-255 | outcome and remaining reader are those of the decoding function every lemma is about |
| StreamDecoder.FrameIsEncoded | encryption.go:43-67 | the encoder's frame of a sendable message is the field-by-field frame, of that length |
| StreamDecoder.FrameShape | nan0Util.go:153-157 | where preamble, type, HMAC size, size and payload lie in a frame, in both modes |
| StreamDecoder.DecodesFrame | nan0Util.go:206-255 | a buffered frame decodes to its message and exactly the frame is consumed, in both modes |
| StreamDecoder.TagDecidesFrame | encryption.go:17-40 | a whole encrypted frame with any 32 bytes in the place of the tag decodes to its message iff they are the tag, and is an error otherwise |
| StreamDecoder.StreamRoundTrip | nan0Util.go:158-255 | any sequence of messages, encoded, concatenated and decoded from one full reader, comes back; trailing bytes stay |
| Fragmentation.NilPairMeansEnd | nan0Util.go:216-220 | the nil pair is returned iff the very first read finds the end |
| Fragmentation.EncryptedFailSafe | nan0Util.go:206-276 | for every cutting, truncation and read error of an encrypted frame: the sent message, the nil pair at the initial end, or an error |
| Fragmentation.PlainFailSafe | nan0Util.go:216-251 | the same for a plain frame unless its size field is the first to be cut |
| Fragmentation.PlainFailSafeExactly | nan0Util.go:234-251 | for payloads of any size: some other message is delivered iff the payload is not empty and the size field is the first to be cut, after zeros only; given that protobuf takes no stretch starting inside the size field for a message |
| Fragmentation.CutSizeDeliversBlank | nan0Util.go:313-322 | a size field cut after zeros only reads as 0 and an empty message is delivered, whatever the payload |
| Fragmentation.CutSizeNeedsZeros | nan0Util.go:234-251 | otherwise a frame whose size field is the first to be cut delivers nothing |
| Fragmentation.TruncationBeforeSizeFails | nan0Util.go:234-251 | the input on which the plain decoder fails: the stream ends after the type |
| Fragmentation.TruncatedFrameDelivers | nan0Util.go:234-251 | a proper front of a plain frame of any size, arriving at once, is taken for a message iff it ends within the size field after zeros only |
| ReceiveLoop.StartServiceReceiver | nan0.go:56-89 | the messages handed on until the token is found, an error ends the loop or the arrivals run out |
| ReceiveLoop.Iteration | nan0.go:60-71 | one pass over one frame's arrivals: an error, another pass, or its message with only zeros of the frame left; in plain mode for every cutting but the one of `PlainFailSafeExactly` |
| ReceiveLoop.SealedLeftover | nan0Util.go:221-251 | after an encrypted message was delivered, what is left of its frame holds only zeros, even if the size field was cut |
| ReceiveLoop.ZerosHoldNoMessage | nan0Util.go:258-276 | such leftovers never decode |
| ReceiveLoop.DeliversPrefix | nan0.go:57-88 | if no arrival spans two frames, the loop delivers a prefix of the messages sent, at every stopping point |
| ReceiveLoop.CutSizeBreaksThePrefix | nan0.go:57-88 | in the one case excluded there, a size field first cut after zeros in a plain frame with a payload, the loop delivers an empty message instead |
| ReceiveLoop.OneArrivalDecodesIff | nan0.go:62-68 | a frame arriving at once is delivered iff it fits the reader's buffer, and is an error otherwise |
| WholeFields.FieldsArriveWhole | nan0Util.go:206-255 | a frame of any size whose fields each arrive whole, in any grouping that fits the buffer or holds one field, is delivered and nothing behind it is touched |
| ReceiveLoop.DeliversTheFittingFront | nan0.go:57-88 | with one arrival per frame, exactly the messages before the first oversized frame are delivered |
| ReceiveLoop.CoalescedFrameIsLost | nan0.go:62 | bytes of a second frame in the same arrival are lost |
| ReceiveLoop.OnlyTheFirstOfEach | nan0.go:57-88 | of any number of arrivals that each hold a frame and more behind it, exactly the first message of each is delivered |
| Websocket.DecodersAgree | wsnan0.go:229-260 | for every byte string and identity map: the websocket decoder delivers m iff the stream decoder with full reads delivers m, uses up the string, and the string has at least 15 bytes |
| Websocket.ShortStringsDisagree | wsnan0.go:229-247 | below 15 bytes the websocket decoder always fails, and the stream decoder delivers an empty message iff the string ends inside the size field after zeros only, behind a known header |
| Websocket.PutMessageInConnectionWs | wsnan0.go:176-205 | the plain frame is what is written; an unregistered type or a failed marshal is refused and nothing written |
| Websocket.WsRoundTrip | wsnan0.go:176-261 | what the websocket sender writes the websocket receiver reads back |
| Websocket.StartServiceReceiverWs | wsnan0.go:128-169 | the messages handed on until an error ends the loop or the reads run out |
| Websocket.OnlyOtherReadsArePassedOver | wsnan0.go:217-261 | a read is passed over iff it is neither binary nor a close message; whatever is wrong with a binary message is an error |
| Websocket.ReceivesUntilClosed | wsnan0.go:217-222 | every binary message is delivered in order, other reads are passed over, and a close message ends the loop |
| Loops.Target | nan0.go:74-84 | named route iff the name has one; default route iff it has none and there is a default; receiver iff neither |
| Loops.WriterStays | nan0.go:99-118 | a writer step keeps: the connection carries whole encodings of the messages taken, in order, but for at most a front of the last |
| Lifecycle.Stays | nan0.go:122-172 | every step of every goroutine keeps the wrapper's invariant |
| Lifecycle.ClosedAtMostOnce | nan0.go:122-132 | in every run: closed once at most, no crash, one signaller at most, one token per channel at most, and the signaller can always go on |
| Lifecycle.ClosesConnIffFirstWasHard | nan0.go:135-162 | in every run: outside the critical section the wrapper has closed the connection, once, iff the first effective call was Close |
| Lifecycle.FirstIsFinal | nan0.go:139-158 | the first effective call is never replaced, and only its own statement closes the connection |
| Lifecycle.DoneStays | nan0.go:141-158 | once closing is complete no step closes the connection again |
| Lifecycle.DispatchConserves | nan0.go:57-88 | in every run: decoded messages go in order to their one destination, each destination has its share, and at most one comes after the reader's token |
| Progress.AtMostOneLateDispatch | nan0.go:57-88 | in every run at most one dispatch comes after the first signal, which is the reader's token |
| Progress.ReaderStopsIff | nan0.go:56-71 | in every run the reader has stopped iff it took the token, a read failed, a route panicked, or the wrapper was closed when it started |
| Progress.ClosedLoopsDoNothing | nan0.go:56-99 | a loop not started when the wrapper is closed never decodes, takes or writes anything |
| Lifecycle.WriterConserves | nan0.go:99-118 | in every run: the connection carries the encodings of the messages taken, in order, save one in flight or a front of one lost; a writer stopped by the token lost exactly the channel's buffer, nothing if unbuffered |
| Progress.WriterStopsIff | nan0.go:99-118 | in every run the writer left by the token iff it took one, never ran iff the wrapper was closed when it started, and otherwise stopped only at a put that failed |
| Progress.PutFramesAreFrames | nan0.go:99-118 | in every run each frame put in full is, field by field, that of the message taken, of a registered type |
| Progress.EverythingCanBePut | nan0.go:99-118 | any list of messages that have frames can go through a new wrapper, whatever the capacity, leaving exactly their frames in order |
| Lifecycle.BufferedSendCanBeLost | nan0.go:101-104 | a run in which a completed buffered send is never put |
| Progress.HolderGoesOn | nan0.go:135-162 | whoever holds the mutex can always execute its next statement, and comes nearer to the end |
| Progress.CallCompletes | nan0.go:135-162 | every call, in whatever state the others are, can be completed and leaves the wrapper closed for good |
| Progress.ClosingIsAlwaysPossible | nanoBuilder.go:74-91 | in every reachable state a user, a loop that has stopped and the watcher can call, and the call can be completed |
| Progress.WithoutSoftCloseTheConnectionIsClosed | nanoBuilder.go:74-91 | where nobody calls softClose, a wrapper that is closed has closed its connection |
| Progress.EachEndsOnce | nanoBuilder.go:74-91 | in every run reader, writer and watcher each close the wrapper at most once, and are gone exactly when they have |
| Progress.DispatchOrPanic | nan0.go:73-84 | a message in hand can be dispatched, and its route, if it goes to one, can panic and end the reader with the message delivered |
| Progress.ShutdownCanComplete | nan0.go:99-132 | from every reachable state in which closing is done both tokens can be sent and both loops can end |
| Lifecycle.SettledIsSequential | nan0.go:122-162 | every interleaving, when settled, is one sequential call of the first effective kind |
| Lifecycle.Nan0.CloseLogic | nan0.go:122-132 | spawns one signaller and closes the channel |
| Lifecycle.Nan0.SoftClose | nan0.go:135-147 | the whole effect of one softClose: nothing if closed, never the connection |
| Lifecycle.Nan0.Close | nan0.go:150-162 | the whole effect of one Close: nothing if closed, else the connection too |
| Handover.OnlySecureCloses | nanoBuilder.go:121-135 | in every run, once the connection is wrapped again only the secure wrapper's effective Close closes it, at most once |
| Handover.TempNeverClosesAfterSoftClose | nanoBuilder.go:223-251 | a temporary wrapper soft-closed first never closes the connection; otherwise it was closed before it was wrapped again |
| Handover.AbandonedStaysOpenIffSoftCloseCameFirst | nanoBuilder.go:233-245 | a rejected connection stays open iff softClose was the first effective call |
| Handover.AbandonedIff | nanoBuilder.go:97-103 | in every run the builder has closed the connection iff the client's recovery ran, and the link is abandoned iff somebody gave up |
| Handover.HandoverHappens | nanoBuilder.go:128-135 | a run that wraps the connection again with nobody having closed it |
| Handover.SecureCanClose | nanoBuilder.go:135 | and then the secure wrapper can close it, once |
| Handshake.CopyKey | nanoBuilder.go:246-247 | copying into the zeroed key array, in place |
| Handshake.KeysAgree | nanoBuilder.go:108-135 | in every run with any number of clients, insecure ones putting anything on their connections, an added wrapper has the two 32-byte keys that an encrypted message on its own connection opens to, and for a secure client the keys it generated |
| Handshake.HandshakeCompletes | nanoBuilder.go:212-265 | whenever the server is accepting a new secure client can go through the handshake and is added with its own keys |
| Handshake.OpeningEnds | nanoBuilder.go:232-251 | whatever a client put, the server comes back to accepting, and adds a wrapper iff it was an encrypted message that opens |
| Handshake.AcceptedOnce | nanoBuilder.go:202 | no connection is accepted twice |
| Handshake.Stays | nanoBuilder.go:212-251 | every step of server and clients keeps what the agreement rests on |
| IdleWatch.LastCommIsLatest | nan0.go:114 | the last communication is the latest send so far, or the creation |
| IdleWatch.CheckAndDoWithDuration | nan0Util.go:84-94 | fires at the first poll with the bound reached, and does fire once sends stop; a negative interval panics |
| IdleWatch.WatchTcp | nanoBuilder.go:82-91 | the TCP watcher fires at least d and less than 2d after the last send before it |
| IdleWatch.WatchWs | nan0WebsocketBuilder.go:113-122 | the websocket watcher fires by age, whatever is sent |
| Registry.BaseBuilder.RegisterIdentity | baseBuilder.go:118-123 | sets both maps for the prototype's name |
| Registry.BaseBuilder.AddMessageIdentities | baseBuilder.go:82-88 | registers the list, one after the other |
| Registry.BaseBuilder.MakeSecure | baseBuilder.go:60-70 | the flag is set, both handshake types are registered, no default route is left |
| Registry.BaseBuilder.AddRoute | baseBuilder.go:101-110 | route and identity; refused for nil when secure; panics on a nil route after registering |
| Registry.BaseBuilder.Build | baseBuilder.go:42-46 | the options in turn, broken off by a panic |
| Registry.BuildIsValid | baseBuilder.go:42-131 | after every sequence of options: ids are the hashes of names both ways, routes are registered, secure implies no default route and both handshake types |
| Registry.SecureIffAskedLast | baseBuilder.go:53-62 | after every finished list of options a builder is secure iff the last of its Secure and Insecure options is Secure, or there is none and it was |
| Registry.LastRouteIsInForce | baseBuilder.go:101-131 | after every finished list of options the last route given for a name is in force, for the default one unless refused or undone by security |
| Registry.BreaksOffIff | baseBuilder.go:126-128 | a build breaks off exactly at a nil route that security does not refuse first |
| Registry.IdLeadsToType | baseBuilder.go:118-123 | without collisions the id held for a type leads to a prototype of that type |
| Registry.RegisteredNames | baseBuilder.go:82-88 | a registered list adds exactly its names, each with its hash |
| Registry.RegisteredTypes | baseBuilder.go:82-88 | without collisions it adds exactly its types under their hashes |
| Registry.LastRegistrationStays | baseBuilder.go:118-123 | with or without collisions, of the prototypes registered under an id the last one stays |
| Registry.RegistrationOrderIsIrrelevant | baseBuilder.go:82-123 | registrations of the same types in any order and number give the same maps, prototypes compared by type |
| Registry.PermutationKeepsNames | baseBuilder.go:82-88 | a permutation registers the same types |
| Discovery.GetIdentityMessageNames | serviceDiscovery.go:86-99 | each registered user type exactly once, for every walk of the map |
| Discovery.AllProtocolsMatch | serviceDiscovery.go:109-125 | true iff the counts agree and every published name is known |
| Discovery.MatchingIsSetEquality | serviceDiscovery.go:109-125 | for a published list without repetitions a match is equality of the sets; with repetitions a match is always wrong |
| Discovery.RepeatedNameMatches | serviceDiscovery.go:112-124 | a repeated name that matches two known types |
| Discovery.MakeDefinition | serviceDiscovery.go:23-33 | the definition names each user type once and the service's address |
| Discovery.PopulateServiceFromMDef | serviceDiscovery.go:101-107 | port and host always, the path only for websockets |
| Discovery.ProcessMdef | serviceDiscovery.go:128-134 | refuses iff strict and not matching, leaving the service alone |
| Discovery.DiscoverStrictly | serviceDiscovery.go:16-134 | a strict client accepts a server's definition iff both know the same user types, and then has its address |
| Discovery.MatchedTypesResolve | serviceDiscovery.go:109-125 | after a match the id one side writes for a user type is that type to the other |
| LinkedLists.InsertedIsMutual | nan0Server.go:124-128 | adding keeps all links mutual, on damaged lists too: no nil pointer is followed |
| LinkedLists.RemovedIsMutual | nan0Server.go:130-134 | so does removing any element, whenever it was added |
| LinkedLists.ClearedIsMutual | nan0Server.go:117-122 | so does clearing, with elements still linked |
| LinkedLists.RemoveKeepsStepIff | nan0Server.go:130-134 | removing an element keeps a list in step iff it was added since the last clear |
| LinkedLists.ClearIsInStep | nan0Server.go:117-122 | clearing puts any list right, damaged or not |
| LinkedLists.LateRemovalShows | nan0Server.go:117-134 | the length and the back of a list whose element is removed after the clear |
| LinkedLists.LateRemovalHides | nan0Server.go:117-134 | what is added between the clear and such a removal is linked and not shown |
| ServerLists.KeepOpen | nan0Server.go:84-93 | exactly the open wrappers are kept |
| ServerLists.ConnList.PurgeClosedConnections | nan0Server.go:78-94 | the list becomes its open wrappers |
| ServerLists.ConnList.DumpConnListToSlice | nan0Server.go:96-110 | all wrappers, in order |
| ServerLists.ConnList.WriteConnListElement | nan0Server.go:124-128 | one new element at the back; a list in step stays in step |
| ServerLists.ConnList.RemoveConnListElement | nan0Server.go:130-134 | that element is unlinked, its value returned; the list stays in step iff the element was added since the last clear |
| ServerLists.NanoServer.AddConnection | nan0Server.go:184-190 | appended to both lists unless shut down |
| ServerLists.NanoServer.ResetConnections | nan0Server.go:193-202 | undisturbed: everything listed closed, both lists empty; nothing closed after a shutdown |
| ServerRuns.LostIff | nan0Server.go:78-202 | in every run, for every wrapper: it was accepted and is now open and unlisted iff the events say that a reset cleared it away unseen and that it was neither closed nor added again since |
| ServerRuns.NoOpenConnectionIsLost | nan0Server.go:78-202 | so each accepted wrapper is closed or listed, in every run that adds nothing to the list of all during a reset and resets nothing after the shutdown |
| ServerRuns.UndisturbedResetClosesAll | nan0Server.go:193-202 | a reset no add interleaves with leaves every accepted wrapper closed and the list of all empty; the stream list is empty iff no element held when it was cleared was taken after |
| ServerRuns.LateAddIsDropped | nan0Server.go:184-202 | every wrapper first listed while a reset is under way is lost at its end unless closed by then |
| ServerRuns.LateAddHappens | nan0Server.go:184-202 | a run in which the listener's first client is lost so |
| ServerRuns.LateTakeUnsettlesTheList | nan0Server.go:149-202 | a run with one wrapper whose undisturbed reset leaves the stream list with length -1 |
| ServerRuns.CapHolds | nanoBuilder.go:200-265 | with the listener as only adder the active count never exceeds the maximum |
| ServerRuns.ListenerStopsIff | nanoBuilder.go:200-245 | in every run the listener has stopped iff it met the cap or its accept failed; no failed handshake stops it |
| ServerRuns.ListenerServes | nanoBuilder.go:200-265 | below the cap it can add any wrapper to both lists and accept again, and accept again after a failed handshake |
| ServerRuns.AdderServes | nan0Server.go:184-190 | so can anyone else before the shutdown, cap or no cap |
| ServerRuns.PurgeMakesRoom | nan0Server.go:78-94 | after a purge exactly the open wrappers are listed, and there is more room iff one was closed |
| ServerRuns.StoppedForGood | nanoBuilder.go:208-210 | a listener that has stopped adds nothing ever again |
| ServerRuns.StreamConserves | nan0Server.go:139-173 | in every run: added wrappers are those delivered, at most one in flight, those listed since the last clear, and those clears have dropped; what is held can be disposed of |
| ServerRuns.StreamInStepIff | nan0Server.go:117-173 | in every run the stream list is in step with what was added since the last clear iff no element held across that clear was taken after it |
| ServerRuns.AcceptedWasStreamed | nan0Server.go:184-190 | in every run each accepted wrapper was put on the stream list |
| ServerRuns.StreamDrains | nan0Server.go:149-170 | a stream list in step can be delivered to its end, the newest wrapper first |
| ServerRuns.StreamRunsUntilShutdown | nan0Server.go:139-152 | the goroutine is begun at most once and is off again only after the shutdown |
| EndToEnd.MatchedBuildersUnderstandEachOther | baseBuilder.go:42-131 | two builders made by any options and matched strictly: what one encodes the other decodes |
| EndToEnd.AgreedKeysCarryMessages | nanoBuilder.go:128-135 | after the handshake the server's loop gets a prefix of what the client encrypted with its own keys |
| EndToEnd.DecodedIsReceived | nan0.go:57-88 | in every interleaving a wrapper decodes only what the receive loop gets from its connection, in that order |
| EndToEnd.EverythingCanBeRead | nan0.go:56-88 | and for every connection and number of passes there is a run that decodes and dispatches all that the loop gets |
| EndToEnd.DispatchedWasHandedOver | nan0.go:52-120 | channel to channel: in any two runs, with any number of closers and a failed write at the end, what the receiving wrapper dispatches is a prefix of what the sending one was handed, each message at its destination |
| EndToEnd.EverythingCanArrive | nan0.go:52-120 | and nothing need be lost: any messages whose frames fit the buffer can be put by one wrapper and dispatched by the other |
| EndToEnd.HandshakeMessagesReachTheReceiver | baseBuilder.go:60-70 | a secure builder sends a message to the receiver iff its type has no route |
| EndToEnd.TargetFollowsTheLastRoute | baseBuilder.go:101-131 | after any finished list of options a message goes to the last route given for its type, else to the last default route in force, else to the receiver |

## Left out

- ReceiveLoop.DeliversPrefix: in plain mode it asks that no frame with a payload has its size field cut first, after zeros only, and of one cut after other bytes that protobuf takes no stretch starting inside the size field for a message.
- ServerRuns.NoOpenConnectionIsLost: one reset at a time, as from one goroutine calling Shutdown.
- IdleWatch.CheckAndDoWithDuration: polls happen exactly at the ticks; scheduling delay is not modelled.
- Sockets, TLS, the HTTP upgrade and its origin checks, mDNS lookup and logging: only their effect on arrivals and on open or closed.
- Protobuf, AES-GCM, HMAC, RSA, FNV and base64 themselves, and failing random sources: library code, taken as parameters.
- Builder options that only set a number or a flag, getters, and the generated protobuf descriptors: they would only add easy members.
- `SizeArrayWidth` other than 4 and replaced size functions.
- `SecureWs`: it sets the flag without removing the default route, so the secure invariant is for the TCP builder.
- Eventual exit of the reader and progress of the server: the reader can block on an unread receiver, the server on a silent client.
- Values on the sender channel that are not messages: they fail the write like an unknown type.
- `GetConnections` called twice at the same moment, and nil wrappers given to `AddConnection`.
- `softClose` of the websocket wrapper: it panics, and no step of the model makes that call.
- Data races on struct copies: each locked list operation is one step.
