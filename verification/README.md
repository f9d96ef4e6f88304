# Verified model of the CppComet server

CppComet keeps WebSocket connections open for browsers, lets them subscribe to channels, and takes
commands from applications over the MySQL protocol. This project models the parts of it whose
behaviour is hardest to see from the code, as Dafny programs, and proves what they are for.

* **Frames from a browser** (`WebSocketInput`, `WebSocketSender`, `SubscriptionCommand`). A stream of masked frames arrives
  in arbitrary reads and is unmasked where it lies; the byte behind each payload, which is the first
  byte of the next frame, is overwritten. Every way of cutting the stream dispatches the same
  payloads, exactly when no handler answers by what stands behind its payload; they are the messages
  that a sender written from RFC 6455 put into the frames, whatever the keys.
* **Frames to a browser** (`WebSocketOutput`). What a reader of RFC 6455 makes of the frames, and
  exactly which short messages `snprintf` leaves intact.
* **Reference counting** (`CpHeap`, `CpMemory`). The smart pointer `CP` over an explicit memory in
  which objects really are freed: counts over whole runs, and exactly when an assignment reads
  freed memory.
* **Subscriber lists and publication** (`FastList`, `Publish`). The linked list written with these
  pointers, and the walk that erases from the list it is walking over.
* **The registry** (`Subscription`, `Registry`). Parsing a subscription command in place, and the
  agreement between the channels and the slots of all connections in every reachable state.
* **SELECT answers** (`ColumnMapping`, `SqlLimit`, `MySqlProtocol`, `MysqlAnswer`, `ProxyUnion`). Columns become a
  position table, cells are written through it into reused rows, rows become numbered packets.
  `MySqlClient` is a reader of the MySQL protocol written independently of the writers; it gets back
  the projection that was asked for.
* **Packets from an application** (`MySqlRequest`). Reassembly of packets from reads.
* **Text transformations** (`Base64`, `JsBase64`, `QuoteRewrite`, `DecimalReaders`). Two Base64 codecs,
  the quote rewriter in front of the parser, and the readers of decimal numbers.

Objects of the source are classes with the fields that the source changes, loops that change buffers
are loops over arrays, and each such method is proved to do what a function on values says; the laws
are then proved about those functions. `Bytes` holds the conventions of C strings, `Sequences` counting
and joining.

Where the code does not do what its names or documentation suggest, the code is modelled as it is,
with the exact condition under which it does:

* `first = first->next` and the like read freed memory exactly when the source (or the destination)
  is a member of an object that nothing but the assigned handle holds, directly or through objects
  that it alone holds (`CpHeap.AssignDefined`, with an instance in `CpHeap.AssignFromFreedNode`).
* The handler of a bare "subscription" reads its list behind the payload. All ways of cutting a stream
  end alike exactly when at most 2176 bytes without a 0 stand there, from the second byte of the glued
  frame on (`SubscriptionCommand.ServerCuttingIff`, with an instance in
  `SubscriptionCommand.BareCommandAndLongFrame`).
* A control frame that arrives glued to a text frame is run as a command. All ways of cutting the
  stream end alike exactly when the handler refuses the payload of a close frame, or accepts that of
  a pong frame (`WebSocketInput.ControlEndsAlikeIff`). With the commands the server has, close frames
  do, and pong frames do not: one that is glued closes the connection
  (`WebSocketInput.CloseEndsAlike`, `WebSocketInput.GluedPongFrame`).
* The scan of a subscription list leaves the text of the connection exactly when an anonymous user is
  refused a `private_` name so late that one more length of the list reaches behind the text
  (`Subscription.SubscribeLeavesTextIff`, with an instance in `Subscription.LongListLeaves`).
* Taking subscriptions back leaves that text exactly when it visits a slot behind whose name no NUL
  stands (`Subscription.TakeBackLeavesIff`). In reachable states this is a slot that an earlier list
  left behind, and the last list that was stored has exactly 2176 characters
  (`Registry.ReachableBeyond`, with instances in `Registry.RefusedListTakesBeyond` and
  `Registry.AcceptedListTakesBeyond`).
* A short message is sent intact exactly when all of it is printed
  (`WebSocketOutput.ShortMessageExact`).
* A cell is read back exactly when its length is not written in the 3-byte form, which comes out one
  byte too long (`MySqlClient.CellRoundTrip`).
* "LIMIT a, b" reaches the answer with its numbers exchanged, and the number of rows is taken for the
  index of the last one. `SqlLimit.SentIsNamedIff` says exactly when the rows that are sent are those
  that the clause names; for a pair of `int`s this is when both lie behind the last row
  (`SqlLimit.PairOfIntsIff`, with an instance in `SqlLimit.FirstTwoOfTen`).
* A client reads an error packet of the proxy exactly when no packet of an answer was made before, or
  a multiple of 256 of them (`ProxyUnion.RefusalIsReadIff`, with an instance in
  `ProxyUnion.RefusalOutOfSequence`).
* `request` always hands over the start of the buffer, which is right exactly when nothing follows
  the first packet (`MySqlRequest.MeetsIntentionIff`).
* The quote rewriter keeps the meaning of a query exactly when no doubled quote starts within its last
  three characters (`QuoteRewrite.KeepsMeaningIff`).
* The two decimal readers give the same `int` exactly up to nine significant digits, or when the
  number wraps around to the -1 of a refusal (`DecimalReaders.ReadersAgreeIff`, with an instance in
  `DecimalReaders.TenDigitsAgree`).
* A binary frame that comes alone closes the connection, two of them in one read do not
  (`WebSocketSender.BinaryFrames`). Of a name in a subscription list, but for the first, the first
  character is not tested (`Subscription.FirstCharacterUntested`).
* The client's codec gives a text back exactly when it holds no "\r\n" (`JsBase64.SameTextIff`).

`dafny verify dfyconfig.toml` checks the whole project.

## Model

| member | source | states |
|---|---|---|
| WebSocketInput.Classify | src/Client_connection.cpp:862-969 | a read is refused, a pong, unfinished or a complete frame; complete means that header and payload have arrived |
| WebSocketInput.ReceiveIsDecode | src/Client_connection.cpp:862-1104 | what the server makes of bytes whose first one was zeroed is what RFC 6455 makes of the stream itself, over all glued frames |
| WebSocketInput.DecodeSplit | src/Client_connection.cpp:826-857 | decoding a prefix and then the rest together with what the prefix left is decoding the whole |
| WebSocketInput.OnReadAgrees | src/Client_connection.cpp:822-1104 | one read, with or without a kept fragment, keeps the connection in step with the decoder of the whole stream |
| WebSocketInput.ReadsDecodeTheStream | src/Client_connection.cpp:822-1104 | for every cutting of a text stream into reads: the payloads dispatched, their order, the rejected command and the bytes kept are those of decoding the whole stream, for every handler that does not answer by what stands behind a payload |
| WebSocketInput.SplitInvariance | src/Client_connection.cpp:822-1104 | with such a handler two cuttings of one stream end in the same log, the same kind of state, and fragments that are equal but for the first byte |
| WebSocketInput.EveryCuttingIff | src/Client_connection.cpp:822-1104 | all cuttings of a text stream leave what decoding the whole stream gives if and only if no answer of the handler, at a command that is reached, depends on what of the following bytes has arrived |
| WebSocketInput.StopsIndifferent | src/Client_connection.cpp:1001-1081 | handlers that stop at the 0 behind their payload are such handlers, for any stream |
| WebSocketInput.CutDiffers | src/Client_connection.cpp:1001-1099 | for any other handler: how many bytes to read at once for the two to part |
| WebSocketSender.FrameIsRead | src/Client_connection.cpp:906-978 | of a frame made as RFC 6455, sections 5.2 and 5.3, says, for any key, any payload below 64 KiB and anything behind it, the server takes off exactly that frame and gets the payload back |
| WebSocketSender.MessagesAreDispatched | src/Client_connection.cpp:822-1104 | for every cutting of a stream of such frames: what is dispatched is the messages in order, all of them or those up to the first that closes the connection |
| WebSocketSender.AllMessagesArrive | src/Client_connection.cpp:822-1104 | all of them for a handler that accepts them and looks at nothing behind its payload |
| WebSocketSender.HelloFrame | src/Client_connection.cpp:975-978 | "hi" under the key 01 02 03 04 |
| WebSocketSender.FrameInTwoReads | src/Client_connection.cpp:836-841 | a frame that comes in two reads is dispatched if and only if it is shorter than `fragment_buf_max_size`; otherwise the connection closes, nothing dispatched |
| WebSocketSender.OtherFramesClose | src/Client_connection.cpp:883-948 | frames of other kinds and 64-bit lengths close the connection |
| WebSocketSender.BinaryFrames | src/Client_connection.cpp:992-999 | a binary frame that comes alone is dispatched and closes the connection; two in one read are dispatched and leave it open |
| SubscriptionCommand.ListArrives | api/CometServerApi.js:1061-1069 | what the client sends for a list of names gives the handler that list, whatever stands behind it |
| SubscriptionCommand.ValidListAccepted | src/Client_connection.cpp:127-292 | the list of at most 32 valid names is accepted |
| SubscriptionCommand.BareCommand | src/Client_connection.cpp:131-153 | with no list of its own the command is refused if and only if more than 2176 bytes without a 0 stand behind it, when they are those of a masked frame |
| SubscriptionCommand.ListAcceptedIff | src/Client_connection.cpp:127-292 | the answer of the command depends neither on the slots nor on the old text of the connection |
| SubscriptionCommand.ServerIndifferentIff | src/Client_connection.cpp:1007-1013 | no answer of the server depends on what is behind a payload if and only if every subscription that is reached is longer than the name of the command, or followed by at most 2176 bytes without a 0 from the second byte of what is glued on |
| SubscriptionCommand.ServerCuttingIff | src/Client_connection.cpp:822-1104 | all cuttings of a stream leave what decoding it gives if and only if this holds |
| SubscriptionCommand.BareCommandAndLongFrame | src/Client_connection.cpp:1007-1013 | a bare "subscription" and a frame of 3000 bytes: one read closes the connection after the first, two reads dispatch both |
| WebSocketInput.ReceiveThenGlued | src/Client_connection.cpp:1001-1099 | what is glued to complete text frames is received with its first byte zeroed, whatever that byte was |
| WebSocketInput.ReadsAndControl | src/Client_connection.cpp:822-1104 | for every cutting of text and a control frame into reads, with such a handler: glued, the frame is run as a command; at the start of a read a close frame closes and a whole pong frame is dropped |
| WebSocketInput.ControlEndsAlikeIff | src/Client_connection.cpp:863-891 | all these cuttings end open, or all closed, if and only if the handler refuses the payload of the close frame, or accepts that of the pong frame |
| WebSocketInput.CloseEndsAlike | src/Client_connection.cpp:1007-1081 | with the commands of the server, close frames end alike: a status code starts no command |
| WebSocketInput.PongEndsUnlike | src/Client_connection.cpp:873-881 | empty pong frames do not: read alone they are dropped, glued they close the connection |
| WebSocketInput.GluedPongFrame | src/Client_connection.cpp:1042-1081 | a concrete command and pong frame, with a handler that accepts every command |
| WebSocketInput.PongCutInTwo | src/Client_connection.cpp:873-891 | of a pong frame that starts a read but is cut, the rest is taken for a frame and closes the connection, unless its second byte is the first of a known frame |
| WebSocketInput.ClientConnection.Assemble | src/Client_connection.cpp:843-852 | the buffer holds the fragment, then the bytes read, then zeros |
| WebSocketInput.ClientConnection.ReadHeader | src/Client_connection.cpp:862-969 | header size and payload length of a complete frame, and which reads are refused or unfinished |
| WebSocketInput.ClientConnection.XorWithMask | src/Client_connection.cpp:975-986 | exactly the payload bytes are combined with the four mask bytes in front of them |
| WebSocketInput.ClientConnection.UnmaskInPlace | src/Client_connection.cpp:975-1001 | the payload is that of RFC 6455, and what follows is unchanged but for its zeroed first byte |
| WebSocketInput.ClientConnection.RunCommand | src/Client_connection.cpp:971-1083 | the unmasked payload goes to its handler, which sees the bytes behind the 0; the first byte of what is glued is zeroed |
| WebSocketInput.ClientConnection.Dispatch | src/Client_connection.cpp:971-1103 | a complete frame is dispatched, then what is glued to it |
| WebSocketInput.ClientConnection.RouteFrames | src/Client_connection.cpp:862-1104 | the recursion over glued frames, in place, leaves the log and the fragment of the model on values |
| WebSocketInput.ClientConnection.WebSocketRequestMessage | src/Client_connection.cpp:822-1104 | one call on the buffer is one step of the model on values, overflowing fragments included |
| WebSocketInput.ClientConnection.ServeReads | src/Client_connection.cpp:792-795 | all reads of a connection, up to the first that fails, leave what the model on values says |
| WebSocketOutput.ShortWsMessage | src/Client_connection.cpp:2549-2566 | the bytes handed to the socket, with what the local array held behind the printed text, or the refusal |
| WebSocketOutput.SendMessage | src/Client_connection.cpp:2635-2690 | the bytes of a message of any length: short form, 16-bit form with swapped length bytes, or refusal |
| WebSocketOutput.ShortMessageExact | src/Client_connection.cpp:2549-2566 | a short message arrives unchanged, whatever was on the stack, if and only if all of it is printed |
| WebSocketOutput.MessageRoundTrip | src/Client_connection.cpp:2635-2690 | a reader of RFC 6455, section 5.2, gets the payload of one frame and leaves exactly what follows it |
| WebSocketOutput.CStringRoundTrip | src/Client_connection.cpp:2635-2690 | a message of length 0 is the C string in the buffer, whatever stands behind its NUL |
| WebSocketOutput.ReadBackAll | src/Client_connection.cpp:2635-2690 | any sequence of messages is read back, frame by frame, from the concatenated bytes |
| CpHeap.ReleaseOneKeepsCounts | src/CP.h:131-144 | one release, with the destructor it may start, keeps every count equal to handles plus raw creation plus releases still to come |
| CpHeap.ReleaseKeepsCounts | src/CP.h:131-144 | the whole cascade ends with every count right, no dangling handle and no member of a freed object |
| CpHeap.ReleaseInTurn | src/CP.h:57-63 | releasing several targets is releasing them one after the other |
| CpHeap.StepKeepsInv | src/CP.h:32-81 | create, wrap, copy, assign and destroy keep: each live count is the number of handles, plus 1 for a raw creation |
| CpHeap.RunKeepsInv | src/CP.h:25-144 | so does every run |
| CpHeap.EveryRunIsCounted | src/CP.h:25-144 | from the empty memory no run ever has a wrong count or a handle on a freed object |
| CpHeap.WrapLeaves | src/CP.h:37-43 | a handle made from a plain pointer points there, the object is counted once more, and nothing else changes |
| CpHeap.CopyLeaves | src/CP.h:45-55 | a copy points where its source does, the object is counted once more, and nothing else changes |
| CpHeap.CreateLeaves | src/CP.h:32-35 | a new object with empty members, counted once by the new handle; all other handles and objects are unchanged |
| CpHeap.NewRawLeaves | src/CP.h:110-116 | a new object with empty members, counted once without a handle |
| CpHeap.AssignLeaves | src/CP.h:65-81 | however far the cascade goes: the destination holds what the source held, exactly the objects that only it kept alive are gone, with their members, all other handles are unchanged, and every count is right |
| CpHeap.DestroyLeaves | src/CP.h:57-63 | the same for the end of a variable, whose handle is gone |
| CpHeap.AssignDefined | src/CP.h:65-81 | an assignment is a use of freed memory if and only if the owner of the source or of the destination stands, before it, in an order of objects from the old target on, each not raw and held by nothing but the destination and members of earlier ones; never between variables, never when the target is held elsewhere |
| CpHeap.DropFreesExactly | src/CP.h:69-72 | dropping a handle frees exactly the objects of such orders |
| CpHeap.ReleaseFrees | src/CP.h:131-144 | the order in which a cascade frees is such an order |
| CpHeap.AssignFromFreedNode | src/CP.h:69-75 | a concrete list for which `first = first->next` reads freed memory |
| CpHeap.AssignEffect | src/CP.h:65-81 | what an assignment does to all handles and objects when its release frees at most one object, whose member, if it has one, points to nothing or to an object that is held elsewhere |
| CpMemory.Memory.GrabObject | src/CP.h:125-125 | one count more, nothing else changed |
| CpMemory.Memory.ReleaseObject | src/CP.h:131-144 | the recursive release does what the cascade on values says and keeps the counts |
| CpMemory.Memory.ReleaseMembers | src/CP.h:57-63 | the members of a destroyed object are released in turn |
| CpMemory.Memory.Create | src/CP.h:32-35 | the default constructor: a new object counted once, its members empty |
| CpMemory.Memory.Wrap | src/CP.h:37-43 | the constructor from a plain pointer is the step of the model |
| CpMemory.Memory.Copy | src/CP.h:45-55 | the copy constructor is the step of the model |
| CpMemory.Memory.Assign | src/CP.h:65-81 | operator= is the step of the model, and reports exactly the uses of freed memory |
| CpMemory.Memory.Destroy | src/CP.h:57-63 | the destructor of a variable is the step of the model |
| FastList.FastList.Append | src/devManager.h:72-85 | the new item is in front of the old list, payloads and counts included, and no temporary handle survives |
| FastList.FastList.Remove | src/devManager.h:87-118 | true if and only if the value is in the list; then exactly its first item is unlinked, and an item that is held elsewhere keeps its `next` |
| FastList.FastList.Walk | src/devManager.h:94-114 | stops at the first item with the value, with `lastItem` on the one before |
| FastList.FastList.RemoveHere | src/devManager.h:96-108 | unlinking at the front and later in the list, neither of which reads freed memory |
| FastList.RemovedIsList | src/devManager.h:96-108 | what is left after unlinking is a list without that item |
| Publish.DeadIsFirst | src/internalApi.cpp:178-182 | erasing by value hits the very item the walk stands on, duplicates or not |
| Publish.ErasedStays | src/internalApi.cpp:180-184 | the erased item is kept alive by the walking handle and keeps its successor |
| Publish.Visit | src/internalApi.cpp:169-185 | one round: the subscriber is delivered if and only if it is alive, and the walk stands on its original successor |
| Publish.SendEventToPipe | src/internalApi.cpp:166-188 | every original subscription is visited once; the receivers are the live ones in order, their number is returned, and exactly they stay in the list, in order |
| Subscription.SubscribeHolds | src/Client_connection.cpp:161-288 | every inserted name can be read back through its slot after the whole scan, for any text |
| Subscription.TakeBackLeavesIff | src/Client_connection.cpp:62-108 | taking back leaves the text if and only if one of the slots up to the first empty one has no NUL behind its name; otherwise it reads the names of all of them |
| Subscription.SubscribeCloses | src/Client_connection.cpp:156-288 | after a list was stored, the slots that it filled and those that had been cleared have a NUL behind their names, and all have unless it fills the text |
| Subscription.VisitedFrom | src/Client_connection.cpp:62-108 | taking back visits the inserted names first, whatever stale slots follow |
| Subscription.SubscribeRoundTrip | src/Client_connection.cpp:127-292 | up to 32 valid names joined with newlines are inserted, all of them, in order, and the scan ends in the trailing zeros |
| Subscription.FirstCharacterUntested | src/Client_connection.cpp:161-270 | the first character of a second name may be any: a concrete list |
| Subscription.NameCharacters | src/mystring.cpp:313-316 | a name consists of letters, digits, '-' and '_' |
| Subscription.AnnouncedOnTrack | src/Client_connection.cpp:209-225 | a subscription to a `track_` channel is announced, which erases its dead subscribers, before the insertion; others are not |
| Subscription.SubscribeLeavesTextIff | src/Client_connection.cpp:161-288 | the scan leaves the text if and only if the user is anonymous, the list reaches a `private_` name that is refused, no letter stands 64 characters or more behind its start, and one more length of the list from there reaches behind the text |
| Subscription.ScanRefused | src/Client_connection.cpp:203-207 | after a refused name the scan does not move on: how far it goes |
| Subscription.LoggedInStays | src/Client_connection.cpp:161-288 | for a user who has logged in the scan stays inside, whatever the list |
| Subscription.LongListLeaves | src/Client_connection.cpp:161-207 | a concrete list of 1115 characters for which it leaves the text |
| Subscription.SubscribeAllowed | src/Client_connection.cpp:203-285 | whatever a client sends, no name longer than 64 characters is inserted, and no `private_` one for an anonymous user |
| Subscription.JoinLength | api/CometServerApi.js:1061-1069 | the joined list of valid names fits into the text of the connection |
| Subscription.ClientConnection.UnSubscription | src/Client_connection.cpp:58-113 | the channels lose the connection once for each visited name and only the first four slots are cleared, or a name is read on behind the text |
| Subscription.ClientConnection.CutName | src/Client_connection.cpp:195-262 | a name is stored in its slot, announced on `track_` channels and inserted unless it is `private_` for an anonymous user |
| Subscription.ClientConnection.WsSubscription | src/Client_connection.cpp:127-292 | the command on the object is the scan on values: answer, slots, text and channels |
| Subscription.ClientConnection.ScanChar | src/Client_connection.cpp:161-288 | one character of the scan |
| Registry.EraseAllCounts | src/Client_connection.cpp:62-108 | how often each number occurs in each channel after subscriptions were taken back |
| Registry.InsertAllCounts | src/Client_connection.cpp:195-266 | and after a list of names was inserted |
| Registry.UnSubscribedIsNowhere | src/Client_connection.cpp:58-113 | taking back, when it stays inside the text, leaves the connection in no channel at all, and everybody else where they were, whatever the slots beyond the fourth hold |
| Registry.OfflineKeepsInv | src/Client_connection.cpp:2474-2512 | a disconnection keeps channels and slots in agreement |
| Registry.CommandKeepsInv | src/Client_connection.cpp:1007-1013 | a subscription command does, rejected ones included |
| Registry.StepKeepsInv | src/Client_connection.cpp:1007-1012 | every event does |
| Registry.StepConns | src/Client_connection.cpp:2474-2512 | who is connected after each event, as which user: a command removes its connection if and only if it is answered with -1, a disconnection exactly its own |
| Registry.ReachableConnected | src/Client_connection.cpp:2474-2512 | in a reachable state every connection has the developer and the user of the connecting event with its number that no disconnection followed |
| Registry.EventRunsIff | src/Client_connection.cpp:58-292 | the events without a next state are exactly: a command or disconnection of a connection with a visited slot behind whose name no NUL stands; a command of an anonymous connection whose scan leaves the text; a command that is refused and leaves such a slot to the disconnection |
| Registry.ReachableBeyond | src/Client_connection.cpp:110-157 | in a reachable state such a slot is none of the inserted ones and none of the four that are cleared, and the last list that was stored has exactly 2176 characters |
| Registry.RefusalFillsText | src/Client_connection.cpp:133-157 | a refused list that makes its own taking back leave the text has exactly 2176 characters |
| Registry.HarmlessRunsComplete | src/Client_connection.cpp:58-292 | every run in which no list has exactly 2176 characters, and no scan can leave the text, completes all its events |
| Registry.RefusedListTakesBeyond | src/Client_connection.cpp:58-292 | a concrete run: a refused list, after which closing the connection reads beyond the text |
| Registry.AcceptedListTakesBeyond | src/Client_connection.cpp:58-292 | another one: an accepted list, after which every command and the disconnection do |
| Registry.RunKeepsInv | src/Client_connection.cpp:58-292 | every run of events does |
| Registry.ReachableAgrees | src/Client_connection.cpp:58-292 | in every reachable state a number occurs in a channel as often as the channel stands in the inserted slots of the live connection with that number |
| Registry.AnonymousNeverPrivate | src/Client_connection.cpp:203-207 | in no reachable state is an anonymous connection in a `private_` channel |
| Registry.ReachablePublication | src/internalApi.cpp:166-188 | in a reachable state a publication finds all subscribers alive and erases nobody |
| Registry.CommandSubscribes | src/Client_connection.cpp:1007-1012 | a command with valid names has a next state if and only if its taking back stays inside the text, and then the connection is in exactly those channels |
| Registry.EraseIsRemove | src/devManager.h:260-263 | erasing from a channel on values is `remove` of the linked list |
| Registry.InsertIsAppend | src/devManager.h:242-245 | inserting into a channel on values is what `append` leaves of the linked list, the newest in front |
| Registry.PublishedIsWalked | src/internalApi.cpp:166-188 | what a publication leaves on values is what the walk over the linked list leaves |
| Registry.PublicationWalks | src/internalApi.cpp:166-188 | a publication leaves in its channel exactly the subscribers that are connected as its developer, in order, and no other channel changes |
| ColumnMapping.ResolvedIff | src/CometQL.cpp:58-85 | the nested loops find no error if and only if the names are distinct and all defined |
| ColumnMapping.FirstErrorIff | src/CometQL.cpp:133-169 | the same for conditions, where no operator may be refused either |
| ColumnMapping.FirstErrorIs | src/CometQL.cpp:58-85 | which error it is: that of the first offending name, undefined before named twice before a refused operator |
| ColumnMapping.MappedIsBijection | src/CometQL.cpp:53-104 | the non-negative positions hit every place of the answer exactly once and keep the names |
| ColumnMapping.Place | src/CometQL.cpp:62-79 | one name: its error, or its column gets the next place and the rest of the table stays a mapping |
| ColumnMapping.CountUsedUpdate | src/CometQL.h:487-499 | giving a place to one more column makes the count of used columns one larger |
| MySqlProtocol.SetToBuff | src/MySqlProtocol.cpp:156-188 | the length bytes, and no change behind the nine places it may touch |
| MySqlProtocol.ToPackage | src/MySqlProtocol.cpp:416-436 | exactly the bytes of a cell, although the length writer touches more than it returns |
| MySqlProtocol.RowPackage | src/MySqlProtocol.cpp:217-242 | exactly the packet of the row, its length written last |
| MySqlProtocol.ColumnToPackage | src/MySqlProtocol.cpp:306-390 | exactly the packet of a column, three of whose bytes keep what the buffer held |
| MySqlProtocol.CountColumPackage | src/MySqlProtocol.cpp:198-207 | the packet with the number of columns |
| MySqlProtocol.EofPackage | src/MySqlProtocol.cpp:86-92 | the EOF packet |
| MySqlProtocol.SendEofPackage | src/MySqlProtocol.cpp:577-582 | the EOF packet as it is sent |
| MySqlProtocol.ErrPackage | src/MySqlProtocol.cpp:94-137 | exactly the error packet |
| MySqlProtocol.HeadAnswer | src/MySqlProtocol.cpp:255-270 | column count, columns and EOF under consecutive numbers; the last number is the first plus one plus the columns |
| MySqlClient.CellRoundTrip | src/MySqlProtocol.cpp:416-479 | a cell of any length below 2^31 is read back, with what follows it, if and only if it is short and NUL-free or long and not between 64 KiB and 16 MiB |
| MySqlClient.RowRoundTrip | src/MySqlProtocol.cpp:217-242 | a row packet gives back every cell, across the switch from inline to long storage, and cannot be read as EOF |
| MySqlClient.ErrorRoundTrip | src/MySqlProtocol.cpp:94-137 | code and text are read back exactly under the number of the packet, modulo 256 |
| MySqlClient.EofRoundTrip | src/MySqlProtocol.cpp:86-92 | an EOF packet reports no warning and the status autocommit, with nothing to follow |
| MySqlClient.ReadColumnBack | src/MySqlProtocol.cpp:306-390 | a column packet gives its name, the character set utf8, the length 77 and the type string, whatever the buffer held |
| MySqlClient.HeadRoundTrip | src/MySqlProtocol.cpp:255-390 | the head gives back the names, whatever the buffer held |
| MySqlClient.AnswerRoundTrip | src/MySqlProtocol.cpp:217-270 | head, rows and EOF are read as the result set they were made from, under consecutive numbers modulo 256 |
| MysqlAnswer.SelectAcceptedIff | src/CometQL.cpp:53-172 | a query is accepted if and only if its columns (none means all) and those of its conditions are distinct and defined, without OR and ORDER BY |
| MysqlAnswer.InsertAcceptedIff | src/CometQL.cpp:182-248 | an INSERT is accepted if and only if its columns are distinct, defined and as many as its values |
| MysqlAnswer.OtherErrors | src/CometQL.cpp:113-200 | ORDER BY is answered with the error of what is not implemented, a wrong number of values with that of the columns list |
| SqlLimit.QueryLimit.SetStart | src/CometQL.h:181-187 | a start that is not positive is ignored |
| SqlLimit.QueryLimit.SetRows | src/CometQL.h:189-195 | so is a number of rows |
| SqlLimit.QueryLimit.ParseLimit | src/CometQL.y:530-548 | the parse actions: a single number is the number of rows, of two the second is the start |
| SqlLimit.Window | src/CometQL.h:513-519 | how many rows the loop comes to: those of `SentRows`, from the start on |
| SqlLimit.SentIsNamedIff | src/CometQL.h:513-519 | the rows that are sent are those that the clause names if and only if there is no clause; or the single number is not 0 and is not cut to 32 bits below the number of rows; or, for a pair, there is no row, the offset is 0 and the count wraps around to nothing, or both numbers lie behind the rows |
| SqlLimit.PairOfIntsIff | src/CometQL.y:541-546 | for a pair of `int`s: if and only if there is no row, or both lie behind the last one |
| SqlLimit.FirstTwoOfTen | src/CometQL.y:541-546 | "LIMIT 0, 2" on ten rows sends the last eight |
| MysqlAnswer.MysqlAnswer.PrepareColumnsForSelect | src/CometQL.cpp:53-104 | the error of the first offence, or: positions map the requested names, the columns are those names, and their number is the count used in the head |
| MysqlAnswer.MysqlAnswer.PrepareColumnsForInsert | src/CometQL.cpp:182-248 | the same for INSERT |
| MysqlAnswer.MysqlAnswer.PrepareWhereExpressions | src/CometQL.cpp:113-172 | the error of the first offending condition, or the positions of the conditions |
| MysqlAnswer.MysqlAnswer.CountColumns | src/CometQL.h:487-499 | the number of columns that have a place |
| MysqlAnswer.MysqlAnswer.GetMapRow | src/CometQL.h:451-464 | the row of a line, created blank when missing; no line changes |
| MysqlAnswer.MysqlAnswer.SetCell | src/CometQL.h:472-481 | one cell of one line is set, through the position table |
| MysqlAnswer.MysqlAnswer.FillRow | src/MySql_connection.cpp:2442-2448 | a row of the table ends up projected in its line, whatever the line held before |
| MysqlAnswer.MysqlAnswer.FillRows | src/MySql_connection.cpp:2420-2453 | all rows do, and later lines are untouched |
| MysqlAnswer.MysqlAnswer.RowsToBuff | src/CometQL.h:513-533 | the packets of consecutive lines from the start of the window: all of it unless space ran out, none without room, never beyond the buffer by more than a row may exceed its room |
| MysqlAnswer.SmallCellsFit | src/CometQL.h:520-525 | with cells of at most 1993 bytes no row ever exceeds its room |
| MysqlAnswer.PlainTableFits | src/CometQL.h:520-525 | with cells up to 65535 bytes a row exceeds it by at most four bytes and 65538 a column |
| MysqlAnswer.MysqlAnswer.SendAllRowsAndHeaders | src/CometQL.cpp:258-276 | the bytes sent are head, packed rows and EOF |
| MysqlAnswer.MysqlAnswer.SelectFrom | src/MySql_connection.cpp:2395-2457 | end to end: an accepted query is answered with bytes that a client reads as the requested names and the emitted rows projected in request order, whatever earlier queries left; each row has the cell of the table under each name; the emitted rows are the first of those the LIMIT clause selects, all of them unless one finds no room |
| MysqlAnswer.WholeWindowIsSent | src/CometQL.h:519-525 | with cells of at most 1993 bytes and a buffer that takes 2000 bytes a cell this is the whole window |
| MysqlAnswer.UnlimitedSendsAll | src/CometQL.h:513-533 | in particular all rows of the table when there is no LIMIT clause |
| MysqlAnswer.SentIsSelected | src/CometQL.h:513-533 | the rows that are sent are the first of `SentRows`, and all of them unless one finds no room |
| MysqlAnswer.AnswerIsRead | src/CometQL.cpp:258-276 | the decoding half of that statement, on the bytes |
| ProxyUnion.FetchFields | src/CometQLProxy_connection.cpp:226-236 | the names of at most twenty fields |
| ProxyUnion.FillValues | src/CometQLProxy_connection.cpp:244-248 | the cells of a fetched row, NULL as the empty text |
| ProxyUnion.AppendRows | src/CometQLProxy_connection.cpp:242-251 | the rows of one node follow what is in the buffer, under consecutive numbers |
| ProxyUnion.ProxyUnionSelect | src/CometQLProxy_connection.cpp:193-279 | an answer if and only if some node answers and none succeeds without a result set; its bytes; and the bytes of the error packet otherwise |
| ProxyUnion.UnionFitsIff | src/CometQLProxy_connection.cpp:226-251 | what is written stays inside the buffer if and only if the head and the rows of the answering nodes do, whatever the buffer holds and the numbers are |
| ProxyUnion.UnionFitsWithin | src/CometQLProxy_connection.cpp:226-251 | it does when the buffer takes 14 bytes, 276 for each column, and for each row four bytes and three more than the longest cell for each column |
| ProxyUnion.RefusalIsReadIff | src/CometQLProxy_connection.cpp:213-222 | the client reads that error under the number it expects if and only if no node had answered before, or the packets of the dropped answer are a multiple of 256 |
| ProxyUnion.RefusalOutOfSequence | src/CometQLProxy_connection.cpp:213-222 | a concrete cluster whose error the client does not read |
| ProxyUnion.UnionIsRead | src/CometQLProxy_connection.cpp:193-279 | the answer is read as one head, from the first answering node, and the rows of all answering nodes in the order of the cluster |
| ProxyUnion.TextsAreRead | src/CometQLProxy_connection.cpp:242-251 | for nodes that answer with given NUL-free texts the client reads those very texts, the empty text for NULL, in the order of the cluster, cut to the columns of the head |
| ProxyUnion.NamesAreFields | src/CometQLProxy_connection.cpp:226-236 | that head has the fields of the first node that answers, at most twenty of them |
| ProxyUnion.FailureAt | src/CometQLProxy_connection.cpp:213-270 | the error that is reported is that of the first node without a result set, or of the last node |
| MySqlRequest.PacketReassembled | src/MySql_connection.cpp:158-208 | reads that end inside a packet call nothing; the read with its last byte calls `one_query` once with exactly its bytes |
| MySqlRequest.EveryPacketOnce | src/MySql_connection.cpp:158-208 | a conversation with one packet in flight calls `one_query` once for each packet, however they are cut, up to the one it gives up on |
| MySqlRequest.WrittenIsPacket | src/MySql_connection.cpp:180-186 | a packet written with its length in three bytes, lowest first, is a packet here, and a reader of the protocol takes off the same |
| MySqlRequest.WrittenPacketsOnce | src/MySql_connection.cpp:158-208 | for packets written like this, each cut in any way: `one_query` is called with exactly these, in order, up to the first after which the handler gives up |
| MySqlRequest.MeetsIntentionIff | src/MySql_connection.cpp:177-208 | a read comes to the packets in it, one by one, if and only if nothing follows the first |
| MySqlRequest.MySqlConnection.Request | src/MySql_connection.cpp:131-212 | one call on the buffers is one step of the model on values |
| MySqlRequest.MySqlConnection.RunQueries | src/MySql_connection.cpp:174-208 | the do-while loop |
| Base64.RoundTrip | src/base64.cpp:49-131 | decoding what was encoded gives the bytes back |
| Base64.Alphabet | src/base64.cpp:35-38 | the alphabet of RFC 4648, section 4 |
| Base64.TestVectors | src/base64.cpp:49-90 | test vectors of RFC 4648, section 10 |
| Base64.StopsOutside | src/base64.cpp:98-98 | decoding stops at the first character outside the alphabet |
| Base64.Encode | src/base64.cpp:49-90 | the length is four characters for every three bytes or part of them |
| Base64.Base64Encode | src/base64.cpp:49-90 | the loop over three-byte arrays computes the encoding of RFC 4648, section 4, given by 24-bit numbers |
| Base64.Base64Decode | src/base64.cpp:92-131 | the loop over four-character arrays decodes up to the first character outside the alphabet |
| Base64.BytesOfDigits | src/base64.cpp:118-127 | the lookup of padding, which finds nothing, does not reach the bytes that are kept |
| JsBase64.ReadUtf8 | api/CometServerApi.js:602-616 | a code unit is read back from its one, two or three bytes |
| JsBase64.Utf8RoundTrip | api/CometServerApi.js:602-692 | so is every text |
| JsBase64.Utf8IsWellFormed | api/CometServerApi.js:602-616 | its bytes are well-formed: a reader that takes only the marker bits and shortest forms of RFC 3629, section 3, gets the text back |
| JsBase64.LineEndsReplaced | api/CometServerApi.js:600-600 | lines that end with "\r\n" end with "\n" and are otherwise unchanged |
| JsBase64.BlocksRoundTrip | api/CometServerApi.js:618-666 | the Base64 layer of the client gives every byte sequence back |
| JsBase64.JsRoundTrip | api/CometServerApi.js:593-698 | decode(encode(s)) is s with "\n" for every "\r\n", for every sequence of code units |
| JsBase64.SameTextIff | api/CometServerApi.js:600-600 | it is s itself if and only if s has no "\r\n" |
| JsBase64.ServerReadsClient | src/base64.cpp:92-131 | the server decodes what the client encodes to the UTF-8 bytes of the text |
| JsBase64.EncodeText | api/CometServerApi.js:595-639 | the client's loops compute the server's encoding of those bytes |
| JsBase64.EncodeGroup | api/CometServerApi.js:620-636 | up to three bytes become the four characters the server would write |
| JsBase64.DecodeText | api/CometServerApi.js:641-695 | the loops compute the decoding, on any text |
| JsBase64.FirstUnitIsOr | api/CometServerApi.js:656-656 | the first unit of four characters has the bits of both shifted numbers, padding included |
| JsBase64.MissingIsA | api/CometServerApi.js:649-666 | characters missing in the last group count as 'A', because `indexOf("")` is 0 |
| QuoteRewrite.KeepsMeaningIff | src/mystring.cpp:538-587 | the literals of the rewritten query, read with backslashes, are those of the original, read with doubled quotes, if and only if no doubled quote starts in the last three characters |
| QuoteRewrite.KeepsMeaning | src/mystring.cpp:538-587 | in particular for queries that go on behind their last literal |
| QuoteRewrite.TextIsRead | src/mystring.cpp:538-587 | a text whose quotes were doubled is read back as that text, before the rewriting and, by the lexer, after it |
| QuoteRewrite.RewriteTwice | src/mystring.cpp:538-587 | a second pass changes nothing |
| QuoteRewrite.OutsideIsKept | src/MySql_connection.cpp:460-482 | length and text outside literals are unchanged, so that offsets fit the restored original |
| QuoteRewrite.Turn | src/mystring.cpp:545-583 | one turn of the loop, in place |
| QuoteRewrite.StrReplaceQuote | src/mystring.cpp:538-587 | the buffer holds the rewritten query, nothing behind it changes, and the result says whether anything was replaced |
| DecimalReaders.PrintedIsRead | src/MySqlProtocol.cpp:481-487 | the printed form of a number is read as that number |
| DecimalReaders.IntRoundTrip | src/CometQL.cc:121-167 | what `strToInt` makes of the printed form of an `int` is that `int` |
| DecimalReaders.LeadingZeros | src/CometQL.cc:138-147 | zeros in front change nothing, with or without a sign |
| DecimalReaders.StrToInt | src/CometQL.cc:121-167 | the number a token starts with, in 32 bits |
| DecimalReaders.ReadInt | src/mystring.cpp:57-85 | the number before the delimiter, or -1 unless at most nine significant digits come first |
| DecimalReaders.ReadersAgreeIff | src/mystring.cpp:57-85 | on a literal before a delimiter the two readers give the same `int` if and only if it has at most nine significant digits, or its value is 2^32 - 1 modulo 2^32 |
| DecimalReaders.TenDigitsAgree | src/mystring.cpp:71-81 | both make -1 of "4294967295" |

## Left out

- Sockets, epoll, threads, mutexes, timers, logging, HTTP pages and file serving: every request, list operation and publication is one step.
- `dbLink`, prepared statements, `user_index`, FreeSWITCH, JWT, SHA-1 and JSON: messages are byte sequences, and a command handler is a function of the payloads dispatched so far that says whether the connection stays open.
- The Bison tables and the parser: a query starts as tokens. For the quote rewriter a quote behind a backslash belongs to its literal, as in the string rules of src/CometQL.l:66-67; their fallback for a literal that is never closed is not modelled.
- Handlers other than the common skeleton of `sql_select_from_*`: a table is given as the rows that were fetched, and their filters, error packets and the INSERT, DELETE and SHOW commands are not part of this model.
- WebSocketInput.ReadsDecodeTheStream: holds for streams of masked 0x81 frames with payloads up to 65535 bytes whose fragments stay below `fragment_buf_max_size`; of 0x82 frames only `WebSocketSender.BinaryFrames` speaks, and other kinds and 64-bit lengths close the connection (`WebSocketSender.OtherFramesClose`).
- WebSocketInput.SplitInvariance: of a handler only the answer is modelled, and it is taken to write nothing behind its payload; some cut a malformed command at a delimiter they look for there.
- SubscriptionCommand.ServerIndifferentIff: commands other than "subscription" answer by their payloads, as those of the server do when a masked frame or nothing is glued to them.
- WebSocketInput.ReadsAndControl: the control frame is the last of the stream, and a pong frame that starts a read comes whole; what becomes of one that does not is `WebSocketInput.PongCutInTwo`.
- WebSocketInput.ClientConnection.WebSocketRequestMessage: a read is shorter than its buffer and bytes past it are zero, as `bufferController` leaves them; `fragment_buf` is a value, its own buffer is not modelled.
- WebSocketOutput.ReadBackAll: for NUL-free payloads of 1 to 122 bytes and any of 126 to 65535; what happens to others is `ShortMessageExact`.
- FastList.FastList.Append: memory never runs out, and the integer payloads of items are a map beside the counted memory.
- Subscription.ClientConnection.WsSubscription: when the list makes the scan leave `subscriptions_data` the model stops with a result of its own, because what lies behind the array is not part of this model; `Subscription.SubscribeLeavesTextIff` says exactly when this happens.
- Subscription.ClientConnection.UnSubscription: a name that is read on behind `subscriptions_data` stops the model with a result of its own; the comparisons with "track_" and "private_" are taken to stop at the first difference.
- Subscription.PipeIndex: a channel is the sequence of its subscribers; `Registry.EraseIsRemove` and `Registry.PublishedIsWalked` tie it to the linked list.
- Registry.ReachableAgrees: runs end at the first event that makes a scan or a taking back leave the text of its connection (`Registry.EventRunsIff` says which events do, `Registry.HarmlessRunsComplete` which runs have none); a disconnection is modelled with the connection already out of the server's table, a connection keeps its user for as long as it is open, and online counters are left out.
- MysqlAnswer.MysqlAnswer.SelectFrom: the table of condition positions has ten entries, so that tables have at most ten columns, as all tables of the server have; a cell is a value in its row, whose long storage is not a separate allocation.
- MysqlAnswer.MysqlAnswer.RowsToBuff: rows longer than 2000 bytes a column can exceed the nominal size of the buffer; the memory behind it has to take them.
- ProxyUnion.ProxyUnionSelect: an error text fits into the 250 bytes of `errorText` with its NUL, the cluster is not empty, every row has a cell for each column of the head, and the buffer takes the whole answer, none of which the code checks (`ProxyUnion.UnionFitsIff` says when it does); the branch for a single node is not modelled.
- MySqlRequest.EveryPacketOnce: one packet in flight, as the command phase of the protocol has it.
- DecimalReaders.StrToInt: a number that does not fit wraps around, where C++ leaves it undefined.
- `sqlLimit::isAllowed`, `sql_union_select_from_users_time` and the conference tables: unused, or tied to services outside the server.
- JavaScript of the browser beyond the codec and the join of the subscription list: tab election and reconnection.
