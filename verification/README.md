# nocand, modelled and proved in Dafny

nocand manages a network of CAN-bus nodes. This project models its protocols and data structures and proves what they
are for:

- **Frames.** `Nocan` (message.dfy) has identifiers and messages; `Reassembly` cuts messages into frames and puts them
  together again, one slot for each of 128 nodes; `NetworkController` (controller.dfy) is the same in memory.
- **Addresses.** `NodeCache` is the persistent cache of leased addresses, `Addresses` the allocator as a value, with its
  runs through saves and restarts, `NodeCollection` the allocator in memory.
- **Channels.** `Channels` is the id allocator and directory, with sequential runs and interleaved goroutines;
  `ChannelCollection` is the directory in memory; `Attributes` expands `$(key)` in channel names.
- **Clients.** `Session` is the numbered request protocol, `Clients` the server's linked list and broadcast, `Framing`
  and `EventTypes` the wire format, `Wire` the two together, `EventServer` two request handlers.
- **Goroutines.** `NodeHandlers` is the master and the per-node goroutines as a state machine over all interleavings.
- **Firmware.** `Bootloader` says what a command trace does to a node's memory, `Firmware` has upload and download.

Code that updates state in place is modelled by classes and methods, each proved equal to a function on values; the
properties are then proved about the functions, for all inputs and all runs. `Number`, `Bytes` and the like in
bytes.dfy are big-endian numbers.

Some properties one would expect do not hold of the code as it is. Each is stated with the exact condition under which
it does: `ArrivesExactlyWhen`, `PendingSlotRecoversExactlyWhen`, `SetEntryKeepsBijection`, `UnregisterKeepsAgreement`,
`StepKeepsAddress`, `SearchEndsExactlyWhen`, `InsertKeepsInverse`, `UnregisterKeepsInverse`,
`RacesKeepInverseExactlyWhen`, `NextIdIsFreshExactlyWhen`, `ExpandDistributesExactlyWhen`,
`DecodeUndoesEncodeExactlyWhen`, `UpdateSurvivesExactlyWhen`, `EventsArriveExactlyWhen`, `MirrorFollowsExactlyWhen`,
`BootloaderIsUntouchedExactlyWhen`, `PageLoopEndsExactlyWhen`, `DownloadReportsExactlyWhen`,
`UploadAcceptedExactlyWhen`, `BuiltIdsAreUnflaggedExactlyWhen`.

## Assumptions

- Links, frame channels and input queues are unbounded FIFO sequences. Each operation under a mutex is one step.
- Time is not modelled: a wait for a node's answer ends with the next entry of a script, which may be a timeout.
- A client that has gone stays gone (`patience` is the number of events it takes before).
- The bootloader (module `Bootloader`) is not part of the repository: SET_ADDRESS sets a pointer, ERASE clears from there
  on, WRITE 0 collects a page, WRITE 1 commits it if the checksum is that of the page and the page ends within flash,
  READ returns bytes from the pointer. CRC-32 is an arbitrary function.

## Model

| member | source | states |
|---|---|---|
| `Nocan.SystemIdReadsBack` | models/nocan/message.go:97-131 | a system message's identifier reads back its kind, node, function and parameter |
| `Nocan.PublishIdReadsBack` | models/nocan/message.go:101-121 | a publish message's identifier reads back its kind, node and channel |
| `Nocan.BuiltIdsAreUnflaggedExactlyWhen` | models/nocan/message.go:97-103 | built identifiers leave the LAST bit clear, and the FIRST bit exactly when the int8 node id is not negative |
| `Nocan.Message.constructor` | models/nocan/message.go:82-95 | a new message carries its identifier and at most the first 64 bytes of data |
| `Nocan.Message.AppendData` | models/nocan/message.go:143-150 | data is appended whole if 64 bytes are not exceeded, else nothing changes |
| `Reassembly.SendMessage` | controllers/network_controller.go:71-98 | all frames of a message are sent in order; if the driver fails, exactly those before the failure |
| `Reassembly.NextFrame` | controllers/network_controller.go:77-88 | one frame: 8 bytes or the rest, FIRST and LAST marks, and the stale bytes of the reused buffer |
| `Reassembly.FrameIs` | controllers/network_controller.go:71-98 | a message is cut into one frame for each 8 bytes or part of them (one if it is empty): frame j carries the bytes from 8j on, FIRST exactly on the first, LAST exactly on the last, and after them what the frame before had there |
| `Reassembly.RunProjects` | controllers/network_controller.go:158-200 | non-interference: for any frame stream and respawns, node n ends as if only its own inputs had come |
| `Reassembly.StoppedNodeIsNotHeard` | controllers/network_controller.go:175-178 | over any inputs without a new queue for node n, a node that does not run keeps its slot as it was: all its frames are dropped |
| `Reassembly.IllegibleFramesChangeNothing` | controllers/network_controller.go:165-173 | a run is the same without its frames that are not extended or claim more than 8 bytes |
| `Reassembly.SlotsStaySound` | controllers/network_controller.go:163-199 | for any frame stream every pending or delivered message of slot n has at most 64 bytes and names node n |
| `Reassembly.PendingSlotRecoversExactlyWhen` | controllers/network_controller.go:180-199 | a slot with a message pending delivers again if and only if a frame comes that is LAST but not FIRST: after losing a last frame, single-frame messages are never heard |
| `Reassembly.ArrivesExactlyWhen` | controllers/network_controller.go:71-98 | a message sent to an idle slot is delivered whole if and only if it fits in one frame or has FIRST and LAST clear |
| `Reassembly.RespawnKeepsMessage` | controllers/network_controller.go:229-231 | a node that is given a new queue at any point of a message loses nothing of it: it is delivered whole, to the new queue |
| `Reassembly.StreamArrives` | controllers/network_controller.go:158-200 | a list of messages from one node is delivered completely, in order, leaving the slot empty |
| `Reassembly.InterleavingProjects` | controllers/network_controller.go:158-163 | any order-keeping interleaving of the nodes' streams projects to each node's own stream |
| `Reassembly.InterleavedMessagesArrive` | controllers/network_controller.go:158-200 | nodes send at once, interleaved in any way: each running node with an idle slot has its messages delivered, all, in order, and its slot ends empty, whatever the other nodes send and in whatever state they are |
| `Reassembly.ReceivedReadsTheSame` | models/nocan/message.go:105-131 | a delivered message has the sender's node, kind, low 16 bits and bytes |
| `NetworkController.Controller.constructor` | controllers/network_controller.go:32-39 | no node runs, nothing is pending or queued |
| `NetworkController.Controller.ReceiveFrame` | controllers/network_controller.go:158-200 | one turn of Serve: the step of the slot machine, and outright: a frame that is not extended, claims more than 8 bytes, or comes from a node that does not run or out of place changes nothing; any other starts or extends its message, which goes to the queue if the frame is the last |
| `NetworkController.Controller.Collect` | controllers/network_controller.go:180-192 | a first frame starts a message, another extends one, one out of place is dropped |
| `NetworkController.Controller.Deliver` | controllers/network_controller.go:194-199 | the finished message joins the queue and the slot is cleared |
| `NetworkController.Controller.Respawn` | controllers/network_controller.go:229-231 | a node runs with a new, empty queue, and its half-received message stays in place |
| `NetworkController.Controller.Serve` | controllers/network_controller.go:158-201 | serving a stream of frames is a run of the slot machine, for which `StoppedNodeIsNotHeard` and the rows above hold |
| `NodeCache.String` | models/node.go:32-42 | the text of an identifier: hex pairs joined by colons |
| `NodeCache.TextOfExample` | models/node.go:32-42 | the form by example: two lower-case digits a byte, the high one first, colons between |
| `NodeCache.DecodeString` | models/node.go:44-60 | for every text: the decoded bytes, or which check failed first, or that a slice goes out of range |
| `NodeCache.DecodesExactlyWhen` | models/node.go:51-58 | a text decodes if and only if it is at most eight digit pairs with colons between; one more character at the end is not looked at |
| `NodeCache.FirstFaultTells` | models/node.go:44-60 | the first place without a pair decides how a text fails: cut in the middle, a bad digit, or a missing colon |
| `NodeCache.TextIsInjective` | models/node.go:32-60 | decoding undoes the text form, so different devices have different cache keys |
| `NodeCache.SetEntryKeepsBijection` | models/node_cache.go:110-129 | setting an entry keeps the two maps inverse if and only if the device had no other address |
| `NodeCache.LoadUndoesSave` | models/node_cache.go:32-108 | loading a saved cache restores it exactly, in whatever order it was written |
| `NodeCache.FirstEntryWins` | models/node_cache.go:61-76 | for every file and cache: the load is complete exactly when all entries decode; the first entry read for an address has it unless the cache had it; nothing else appears and nothing the cache had goes |
| `NodeCache.Store.SetEntry` | models/node_cache.go:110-129 | the new maps, whether anything changed, and the dirty flag |
| `NodeCache.Store.Lookup` | models/node_cache.go:131-133 | the cached address, or 0 |
| `NodeCache.Store.ReverseLookup` | models/node_cache.go:135-138 | with sound maps: whether some device is cached under the address |
| `NodeCache.Store.Save` | models/node_cache.go:79-108 | a dirty cache is written as a listing of its entries, each once, in some order |
| `NodeCache.Store.Load` | models/node_cache.go:61-76 | for every file: entries are added unless their address is taken; the first undecodable one ends the load |
| `Addresses.FirstFrom` | models/node.go:222-244 | the least free address, or the least free one that the cache does not reserve |
| `Addresses.CachedSlotIsEmpty` | models/node.go:210-212 | a cached device that is not live finds its slot empty: the guard never fails |
| `Addresses.RegisterSound` | models/node.go:196-247 | registering keeps all invariants and gives an address in 1..127, the cached one if there is one |
| `Addresses.OutcomeExactlyWhen` | models/node.go:196-247 | each outcome by what can be seen before: renewed exactly for a live device, restored exactly for a cached one, granted the least unreserved address exactly for a new one while there is one |
| `Addresses.RegisterKeepsOthers` | models/node.go:196-247 | a device that is registered is found by address and by device; every other address and device finds what it found before |
| `Addresses.RegisterFailsExactlyWhen` | models/node.go:196-247 | it fails exactly for the null device, or for a new one when 127 nodes are live |
| `Addresses.EvictsExactlyWhen` | models/node.go:234-244 | the fallback takes an address exactly for a new uncached device when all 127 addresses are in the cache, and it takes the least that is not live |
| `Addresses.UnregisterKeepsAgreement` | models/node.go:249-257 | unregistering a live or stale node keeps table and map in agreement if and only if its device and its address lead to the same entry |
| `Addresses.UnregisterRemoves` | models/node.go:249-257 | after Unregister the node is gone by address and by device, all others are found as before, and the cache is the same |
| `Addresses.ClearedIsDeserted` | models/node.go:259-267 | after Clear, and after a restart, no address and no device finds a node |
| `Addresses.UnregisteredIsRestored` | models/node.go:201-257 | over runs: an unregistered device is not found until it registers again, whatever others do, and is then restored to its address as a new node, never renewed, unless the address was lost by a step of the kind `StepKeepsAddress` names |
| `Addresses.RunOps` | models/node.go:196-267 | every run of Register, Unregister, Clear, saves and restarts from whatever was last saved keeps registry, cache and file sound |
| `Addresses.RunsStaySound` | models/node.go:196-267 | from an empty registry and no file: table and map agree, cache maps are inverse, every live node's cache entry is its address |
| `Addresses.StepKeepsAddress` | models/node_cache.go:110-129 | a step leaves a cached address with its device if and only if it is neither a fallback registration that takes it (cache full, least free address) nor a restart from a file without it |
| `Addresses.AddressesStick` | models/node.go:201-244 | a device gets its address back from every later Register, across Unregister, Clear, saves and restarts, unless such a step came |
| `Addresses.SavedAddressesStick` | models/node_cache.go:61-108 | once saved, an address survives any number of restarts: only a fallback registration takes it |
| `Addresses.FirstDeviceKeepsOne` | models/node_cache.go:61-108 | the smallest run of this kind: the first device gets address 1, and after a save and a restart has it again |
| `NodeCollection.Collection.Find` | models/node.go:165-173 | the node at an address is the one its device leads to; none exactly when no registered device has that address |
| `NodeCollection.Collection.Lookup` | models/node.go:175-183 | the node of a device sits in the table at its own address; none exactly when no node in the table is of that device |
| `NodeCollection.Collection.Install` | models/node.go:213-218 | a new node in table, map and cache under the same address |
| `NodeCollection.Collection.Search` | models/node.go:223-235 | the loops stop at the first address that qualifies |
| `NodeCollection.Collection.Choose` | models/node.go:210-246 | the cached address, else the first unreserved, else the first free |
| `NodeCollection.Collection.Register` | models/node.go:196-247 | the registry step; a live node is renewed, a new one is fresh; table and map keep the same objects |
| `NodeCollection.Collection.Unregister` | models/node.go:249-257 | the node is found neither by address nor by device any more, every other slot and device keeps its node object; the result tells whether the object itself was in the table |
| `NodeCollection.Collection.Clear` | models/node.go:259-267 | no node is found by any address or device; the cache stays |
| `Channels.Skips` | models/channel.go:97-109 | the ids passed are in use and the one stopped at is free |
| `Channels.SearchEndsExactlyWhen` | models/channel.go:97-111 | the search for an id ends if and only if fewer than 65536 are in use |
| `Channels.InsertKeepsInverse` | models/channel.go:97-107 | the locked half of Register keeps ids and names inverse if and only if the name is new |
| `Channels.RegisterGives` | models/channel.go:85-112 | all that Register changes: a known name gives its id and changes nothing; a new one gets the first free id from the cursor on, which moves just past it, and no other entry changes |
| `Channels.UnregisterKeepsInverse` | models/channel.go:114-121 | unregistering a live or stale channel keeps them inverse if and only if name and id lead to the same channel |
| `Channels.UnregisterRemoves` | models/channel.go:114-121 | a channel that is unregistered is gone by id and by name, and every other entry is as it was |
| `Channels.RunKeepsInverse` | models/channel.go:85-121 | ids and names stay inverse over every sequential run |
| `Channels.CursorNeverJumps` | models/channel.go:97-109 | over a run the cursor tries ids one by one, modulo 65536 |
| `Channels.GrantsAreFarApart` | models/channel.go:97-109 | between two grants of one id every other id was tried, and was granted or in use then |
| `Channels.RacesKeepOwners` | models/channel.go:90-107 | with interleaved lookups and inserts no id changes owner and every name leads to a channel of that name |
| `Channels.RacesKeepInverseExactlyWhen` | models/channel.go:90-107 | over any interleaving ids and names stay inverse if and only if no goroutine inserts a name that came in after its lookup |
| `Channels.RaceDuplicatesName` | models/channel.go:90-107 | the smallest race: two goroutines that both look up first leave one name with two ids |
| `Channels.AloneIsRegister` | models/channel.go:85-112 | a goroutine that is not interrupted between its two locks does what Register does |
| `ChannelCollection.Channel.SetContent` | models/channel.go:33-41 | content is replaced if it has at most 64 bytes, else kept |
| `ChannelCollection.Collection.Lookup` | models/channel.go:123-131 | the channel of a name is the one its id leads to; none exactly when no channel has that name |
| `ChannelCollection.Collection.Find` | models/channel.go:133-141 | the channel of an id is the one its name leads to; none exactly when no channel has that id |
| `ChannelCollection.Collection.Register` | models/channel.go:85-112 | the directory step; known names give their channel, new ones a fresh one |
| `ChannelCollection.Collection.Search` | models/channel.go:97-109 | the loop ends at the first free id from the cursor on |
| `ChannelCollection.Collection.Unregister` | models/channel.go:114-121 | the channel is found neither by name nor by id, and all others are found as before |
| `Attributes.ExpandAttributes` | models/node.go:133-150 | the search-and-cut loop gives what a one-pass reader gives: values are not read again, unclosed references stay |
| `Attributes.UnclosedIsVerbatim` | models/node.go:142-145 | text in which nothing closes is copied as it is |
| `Attributes.ReferenceIsReplaced` | models/node.go:133-150 | after text without references, `$(key)` gives the value of its key, nothing if it has none, and the value is not read again |
| `Attributes.ExpandDistributesExactlyWhen` | models/node.go:133-150 | expansion works piece by piece, for all attributes, if and only if no reference is closed across the split |
| `Session.EventConn.SendAsync` | socket/client.go:155-179 | the next id, its pending entry, and the state after a failed write |
| `Session.EventConn.ProcessNextEvent` | socket/client.go:270-301 | id 0 is unsolicited, a pending id is answered and removed, any other is unexpected |
| `Session.ClientDescriptor.CheckMsgId` | socket/server.go:220-230 | the expected id, skipping 0, and whether the request has it |
| `Session.StepKeeps` | socket/client.go:155-179 | sending, serving, notifying and processing keep the session invariant |
| `Session.RunsAgree` | socket/server.go:205-246 | in every run, past any number of wraps, no request is refused, every ack finds its request, callbacks fire in order, once each |
| `Session.EveryRequestIsAnswered` | socket/server.go:205-246 | from every state of every run: once both ends have done the work on the links, every request sent is answered by its own callback, in order, and nothing is pending |
| `Session.OneIdPasses` | socket/server.go:220-230 | from any last id exactly one id other than 0 passes the check, the next of 1..65535 in a circle; 0 passes and changes nothing |
| `Session.PendingIsUnderWay` | socket/client.go:276-301 | pending ids are exactly those of requests and acks under way, never 0 |
| `Session.NextIdIsFreshExactlyWhen` | socket/client.go:165-170 | the next id is unused if and only if fewer than 65535 requests are pending |
| `Session.OneTooManyTakesOver` | socket/client.go:165-170 | with 65535 pending, one more request gets the oldest one's answer |
| `Session.ConnectionStartsSound` | socket/client.go:98-108 | after the hello exchange the invariant holds |
| `Clients.RosterIsExact` | socket/server.go:78-118 | over every run the list holds exactly the clients created and not deleted, ids strictly decreasing |
| `Clients.ClientDescriptor.SendEvent` | socket/server.go:33-39 | a connected client takes the event, another refuses it |
| `Clients.Server.NewClient` | socket/server.go:78-95 | the new client heads the list, with the next id |
| `Clients.Server.DeleteClient` | socket/server.go:97-118 | the client leaves the list, the order of the rest is kept, and the result tells whether it was there |
| `Clients.Server.Walk` | socket/server.go:107-115 | the walk finds the client and its predecessor |
| `Clients.Server.Broadcast` | socket/server.go:120-137 | every listed client that is not excluded and whose filter lets it through takes the event once, no other |
| `Framing.PackLength` | socket/event.go:52-83 | the five length forms |
| `Framing.EncodeEvent` | socket/event.go:85-108 | ids, length and payload, in order |
| `Framing.Reader.DecodeEvent` | socket/event.go:110-152 | the framed event or the first read that failed |
| `Framing.DecodeUndoesEncodeExactlyWhen` | socket/event.go:52-152 | decoding gives an encoded event back, whatever follows, if and only if its payload is below 4 GiB |
| `Framing.EncodedBytes` | socket/event.go:52-108 | the bytes themselves: id and length are written high byte first, the length in the fewest bytes that hold it after a byte 0x80 + their number, or in one byte up to 0x80 |
| `Framing.CutShortFails` | socket/event.go:110-152 | an encoded event cut short anywhere fails with the read that came too short |
| `Framing.WrongLengthExactlyWhen` | socket/event.go:124-141 | a length byte is refused exactly if it is above 0x80 and its low four bits are not 1 to 4 |
| `Framing.StreamReadsBack` | socket/event.go:85-152 | any number of encoded events are decoded one by one, in order |
| `Framing.EncodingIsPrefixFree` | socket/event.go:85-108 | no encoded event is a proper prefix of another |
| `EventTypes.UnpackList` | socket/event_types.go:518-534 | the loop over a shrinking slice takes items until nothing is left or one fails |
| `EventTypes.UnpackedListRepacks` | socket/event_types.go:501-534 | a list that unpacks is, byte for byte, the packing of its items |
| `EventTypes.UnpackedUpdateRepacks` | socket/event_types.go:402-457 | a successful Unpack has consumed exactly PackedLength bytes, and these are the packing of its result |
| `EventTypes.UpdateSurvivesExactlyWhen` | socket/event_types.go:406-457 | a channel update survives Pack and Unpack if and only if its name has at most 64 bytes, its value at most 255 and its time is in range |
| `EventTypes.UpdateLayout` | socket/event_types.go:406-421 | where each field of a packed update is, numbers high byte first |
| `EventTypes.UpdateUnpacksExactlyWhen` | socket/event_types.go:423-457 | Unpack succeeds exactly on bytes that begin with some packed update |
| `EventTypes.NameTooLongExactlyWhen` | socket/event_types.go:423-457 | Unpack calls a name too long exactly when nothing that could follow would make it succeed; any other input can be completed |
| `EventTypes.UpdateRunsOutExactlyWhen` | socket/event_types.go:423-444 | Unpack indexes past its input exactly when that ends before one of the two length bytes |
| `EventTypes.ChannelListSurvivesExactlyWhen` | socket/event_types.go:501-534 | a channel list survives if and only if all its updates do |
| `EventTypes.FillUpdate` | socket/event_types.go:406-421 | filling one buffer by position gives the packing |
| `EventTypes.NodeSurvivesExactlyWhen` | socket/event_types.go:597-616 | a node update survives at any int64 time, if its state fits a byte |
| `EventTypes.NodeLayout` | socket/event_types.go:597-616 | where each field of a packed node update is; the time is in two's complement |
| `EventTypes.NodeListSurvivesExactlyWhen` | socket/event_types.go:653-676 | a node list survives if and only if all its updates do |
| `EventTypes.FirmwareSurvivesExactlyWhen` | socket/event_types.go:762-818 | a firmware event survives if and only if every block is below 4 GiB |
| `EventTypes.FirmwareLayout` | socket/event_types.go:762-786 | where each field of a packed firmware event and of its first block is |
| `EventTypes.FirmwareRunsOutExactlyWhen` | socket/event_types.go:788-818 | Unpack runs past its input exactly when that ends within the limit; a block cut short it sees |
| `EventTypes.FilterSurvives` | socket/event_types.go:162-179 | a channel filter survives in whatever order its ids are written |
| `EventTypes.FilterLayout` | socket/event_types.go:162-179 | id k of a packed filter is at byte 2k, high byte first |
| `EventTypes.FilterRunsOutExactlyWhen` | socket/event_types.go:162-179 | Unpack runs past its input exactly when that has an odd length |
| `Wire.ContentSurvivesExactlyWhen` | socket/event.go:160-219 | an event of any of six types, packed and then unpacked by its event id, is the same if and only if its parts are in range |
| `Wire.EventsArriveExactlyWhen` | socket/event.go:85-220 | any stream of typed events, packed and framed, is received as the same events with the same message ids, in order, if and only if the parts of every one are in range |
| `BigEndian.NumberOfBytes` | socket/event_types.go:19-66 | decoding a fixed-width number undoes encoding it |
| `BigEndian.BytesOfNumber` | socket/event_types.go:19-66 | encoding it undoes decoding it |
| `EventServer.AnsweredInOrder` | controllers/event_server.go:35-81 | over any sequence of channel update requests: one ack for each, in order, and ids and names stay inverse |
| `EventServer.SuccessExactlyWhen` | controllers/event_server.go:35-81 | the ack is Success exactly for a named creation and for an update of an existing channel |
| `EventServer.CreationIsTold` | controllers/event_server.go:41-51 | a creation is broadcast, once and without a value, exactly when it makes a new channel, under the id the name then leads to; any other has no effect but its ack |
| `EventServer.NotFoundExactlyWhen` | controllers/event_server.go:35-81 | the ack is NotFound exactly for a request other than a creation that is about no channel, by its name or, without one, by its id |
| `EventServer.UpdateReachesTheBus` | controllers/event_server.go:64-72 | something is published on the bus exactly for an update of an existing channel; then the effects are one publish of that channel's id with the first 64 bytes, one broadcast of its name, id and whole value, and the ack |
| `EventServer.BusSeesUpdates` | controllers/event_server.go:35-81 | over any sequence of requests the publishes are those of the successful updates, in order |
| `EventServer.DestroyRemoves` | controllers/event_server.go:73-80 | a request to destroy a channel removes it and nothing else, and is not broadcast |
| `EventServer.ChangeIsDeniedExactlyWhen` | controllers/event_server.go:73-80 | a change of the directory is acked as a failure exactly when a channel is destroyed |
| `EventServer.ServingKeepsInverse` | controllers/event_server.go:35-81 | requests keep ids and names inverse |
| `EventServer.MirrorFollowsExactlyWhen` | controllers/event_server.go:48-80 | another client that adds every broadcast creation keeps up with a request if and only if it does not destroy a channel, which is not broadcast |
| `EventServer.MirrorFollowsRun` | controllers/event_server.go:48-80 | until a channel is destroyed, the broadcasts tell such a client the whole directory |
| `EventServer.ChannelUpdateHandler` | controllers/event_server.go:35-81 | the effects and the directory are those of the specification to which `UpdateReachesTheBus` and the rows above apply; content above 64 bytes is acked but not stored; no other channel's content changes |
| `EventServer.FirmwareUploadHandler` | controllers/event_server.go:123-149 | an operation is left pending at the node's address exactly for a known node and blocks at or above 0x2000, even if the boot request fails; what is sent; everything pending has passed the offset check |
| `NodeHandlers.SignalReachesItsNode` | controllers/network_controller.go:225-228 | a terminate signal is received by the live handler of the node it was meant for |
| `NodeHandlers.StepKeeps` | controllers/network_controller.go:203-265 | every step of every goroutine keeps the invariant |
| `NodeHandlers.StoppedNodeIsServed` | controllers/network_controller.go:229-232 | progress, from every world that can be reached with the master waiting: a request of a node that does not run, and four steps of the master, are possible and leave it running, on fresh channels, with exactly one more handler |
| `NodeHandlers.RunningNodeIsServed` | controllers/network_controller.go:225-232 | the same for a node that runs: its handler comes to its select by its own steps, takes the signal and ends, and is replaced on fresh channels |
| `NodeHandlers.HandlerComesBack` | controllers/network_controller.go:247-262 | a handler at its select takes a message and comes back to it; a terminated one closes its queue and is gone |
| `NodeHandlers.OneHandlerPerNode` | controllers/network_controller.go:203-265 | in every interleaving a node has one live handler at most; from its spawning on its context runs and holds the channels it has captured or will capture; no queue is closed twice or while read |
| `NodeHandlers.LiveContextsStay` | controllers/network_controller.go:225-245 | no step replaces the context of a node that has a live handler |
| `NodeHandlers.SignalledHandlerListens` | controllers/network_controller.go:225-228 | the master, when it signals, always has a partner that can reach the rendezvous |
| `Bootloader.UploadWritesImage` | controllers/firmware.go:80-147 | replaying a successful upload of any code erases the application area, lays the blocks over it in order, as far as their pages are in flash and with those that wrap around 32 bits cut in two, and does nothing else |
| `Bootloader.OutsideIsUntouched` | controllers/firmware.go:98-142 | for any code: a byte to which no byte of a block is addressed stays as erased |
| `Bootloader.PagesStayAboveExactlyWhen` | controllers/firmware.go:101-104 | with all blocks at or above 0x2000, all page addresses are at or above it if and only if no block's page addresses wrap around 32 bits |
| `Bootloader.BootloaderIsUntouchedExactlyWhen` | controllers/event_server.go:127-132 | with all blocks at or above 0x2000, as the handler checks, nothing below changes, whatever the memory held, if and only if no block's page addresses wrap around, which it does not check |
| `Bootloader.WrappedUploadReachesZero` | controllers/firmware.go:102-104 | a block of two pages at 0xFFFFFFC0 passes the check and its second page is written at address 0 |
| `Bootloader.PagesAreSmall` | controllers/firmware.go:101-124 | every page transaction carries 1 to 64 bytes |
| `Bootloader.BlockPageIs` | controllers/firmware.go:101-124 | page m of a block starts at its byte 64m; only the last may be short |
| `Bootloader.FlashTraceIs` | controllers/firmware.go:102-135 | commands 3 + 3j to 5 + 3j of an upload are the address, the data and the checksum of page j |
| `Firmware.SignatureAcceptedExactlyWhen` | controllers/firmware.go:54-72 | which replies pass the signature check: its third byte is free |
| `Firmware.RepliesAreNotMixedUp` | controllers/network_controller.go:51-69 | only a system message lets a transfer go on, and only after a command of the one kind that it answers |
| `Firmware.Uint32ToBytes` | controllers/firmware.go:42-48 | four big-endian bytes |
| `Firmware.UploadPage` | controllers/firmware.go:102-135 | address, data and the checksum of exactly these data, as far as the node accepts them |
| `Firmware.UploadAndReport` | controllers/firmware.go:102-140 | one page: its commands, and the next report of the plan, or one failure mark with the bytes of the pages before |
| `Firmware.UploadBlock` | controllers/firmware.go:98-141 | the pages of a block in order, each with the plan's report |
| `Firmware.UploadBlocks` | controllers/firmware.go:98-142 | the blocks in order |
| `Firmware.Open` | controllers/firmware.go:80-96 | signature, address and erase, as far as the node accepts them |
| `Firmware.UploadFirmware` | controllers/firmware.go:74-147 | with any replies and any patience: it succeeds exactly when the node accepts the whole trace and the client stays; the commands sent are the trace up to the first refusal or to the client's leaving, and the events are, exactly, the planned reports so far and the marks that end it |
| `Firmware.ReportIs` | controllers/firmware.go:138 | the report after page j counts the bytes of pages 0 to j, modulo 2^32, and its percentage p of its block's size has p * size <= 100 * from < (p + 1) * size, while 100 * from fits 32 bits |
| `Firmware.PercentIs` | controllers/firmware.go:138 | the percentage alone |
| `Firmware.UploadIsTold` | controllers/firmware.go:74-147 | what a client is told who stays, however far the upload gets: percentages, then one mark that tells the result; the byte counts never go back and end at the size of the code, if that is below 4 GiB |
| `Firmware.ReceivedIsCountable` | socket/event_types.go:788-818 | it is, for any firmware received in one event |
| `Firmware.PageLoopEndsExactlyWhen` | controllers/firmware.go:101 | the page loop of a block ends if and only if the block has at most 0xFFFFFFC0 bytes |
| `Firmware.Finish` | controllers/firmware.go:145-146 | the last report and the success mark |
| `Firmware.PageAddress` | controllers/firmware.go:168-171 | every page read lies in [0x2000, 0x40000) |
| `Firmware.DownloadFirmware` | controllers/firmware.go:149-199 | with any replies and any patience, for every limit: it succeeds exactly when all reads are answered and the client stays, and then the block is the data read; the commands sent and the events are stated exactly, also for a download that breaks off |
| `Firmware.DownloadReportsExactlyWhen` | controllers/firmware.go:188-193 | byte counts never go back exactly when the length is whole pages; reports are percentages exactly when the last page's is one, as for whole pages |
| `Firmware.ShareIs` | controllers/firmware.go:188-190 | a report of a download gives the whole percentage of the length that is read, while that is below 256 |
| `Firmware.DownloadPage` | controllers/firmware.go:169-190 | one page and its report, or how a download breaks off |
| `Firmware.ReadPage` | controllers/firmware.go:169-187 | one page: address, read, data |
| `Firmware.UploadAcceptedExactlyWhen` | controllers/firmware.go:74-147 | a working bootloader accepts the whole of an upload if and only if it computes, for every page, the checksum that it is sent |
| `Firmware.DownloadReadsMemory` | controllers/firmware.go:168-187 | a working bootloader answers every read, and what is collected is its memory |
| `Firmware.DownloadReturns` | controllers/firmware.go:149-187 | for every limit: whole pages from 0x2000 on that hold it, and the whole application area for a limit of 0 or above its length |
| `Firmware.UploadThenDownload` | controllers/firmware.go:74-199 | an uploaded image, downloaded with its length as limit, comes back in whole pages that start with it |

## Left out

- Channels.Register: in a full directory the source loops for ever with the lock held; the model's Register is then not callable for a new name, and `SearchEndsExactlyWhen` says when that is.
- NodeCache.DecodeString: a text that ends in a lone digit counts as an overrun; where Go has given its copy of the text spare room the source only reports a bad digit. The load fails in either case.
- Firmware.UploadFirmware: not for blocks above 0xFFFFFFC0 bytes, for which the source loops for ever (`PageLoopEndsExactlyWhen`); the same holds for UploadBlock.
- Session.RunsAgree: leaves out request expiry (it calls the callback of the request just answered), `Send` (it reads the id before one is given), undecodable requests, requests without a handler, and reconnection.
- When saves happen: the timer, and saves that fail. A restart may follow any save, and entries newer than the last one are then lost.
- Stale nodes: the pinger unregisters nodes it listed earlier, which a Clear in between makes stale. Runs unregister nodes that are live or quite gone; one whose address or device has been taken since is covered by `UnregisterKeepsAgreement`.
- Firmware error texts: a checksum error with an empty reply would make the source index past its input while it builds the message.
- Sending on a node's queue between the terminate signal and the new queue, and bounded channel capacities.
- Hello events, device information, system properties, power status: version bytes read at another place than written, floats and reflection.
- The download-request handler: it asserts another event type than the decoder builds for its id.
- Fields of received objects are results of the unpacking functions here; partly filled receivers after an error are not modelled.
- Event types of one or no field (acks, requests, progress, bus power), sscp transport, SPI driver, CLI, configuration, logging, ordered listing of channels.
