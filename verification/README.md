# Huasi: buffers, channel lifetimes and query codec, verified

Dafny models of the parts of the Huasi gateway, and of the buffer code it carries along, that move
bytes or decide when an object dies:

- **Scatter-gather views** (`ByteRegions`, `BuffersIterator`, `BufferCopy`). A buffer sequence is a list
  of memory regions, some of them possibly empty; its contents are the bytes at the flat list of its
  addresses. The random-access byte iterator is an integer index into that list, and every copy loop
  is a byte-by-byte copy between two such lists.
- **Stream buffer** (`Streambuf`). A byte queue in one growing array with four moving offsets, proved
  to behave like a bounded sequence for any run of operations.
- **Channels and the server** (`ChannelLifetime`, `ChannelTraffic`, `ChannelObject`, `ServerLifetime`,
  `ServerObject`). One
  event loop runs completion handlers; a reference is counted for every pending operation, for the
  open socket and for every `ptr`. Callbacks are arbitrary user code: sequences of sends, closes
  (nested, when closing reports an error) and copies or drops of a `ptr`. `ChannelLifetime` is about
  references, `ChannelTraffic` about what a channel does for its user: what is sent is written, and a
  connected channel goes on reading.
- **Counted handles** (`CountedHandles`). `ptr` and its counted base class, with handles that live inside
  objects and die with them, so that one release can delete a whole chain of objects. What a release
  deletes is computed from the handles alone (`Release.Doomed`), and every run of the counting code is
  proved to be the run of a heap that has no counts (`Heap.Run`).
- **Query codec** (`QueryCodec`). Percent-encoding (sections 2.1 and 2.3 of RFC 3986), the '+' and '&'
  conventions of section 8.2.1 of RFC 1866, the body renderer and the query splitter.
- **Decimal casts** (`IntegerCast`, with `Modular`). Parsing and printing for every width and signedness,
  with all truncations written out.
- **Socket stream buffer** (`SocketFlush`). The put area and its partial-send loop.

`Basics` holds an option type and minimum and maximum.

Code that updates state is modelled by classes and loops; where a class is proved against functions
(channels, server), the properties of every run are lemmas about those functions. A failed library
assertion and a thrown `length_error` are results. What the network answers, what user callbacks do
and how many `ptr`s a factory keeps are inputs, universally quantified.

## Where the code does not do what one might expect

- `Server.hpp:30` says that closing the server will cause its destructor to be called later. The accept
  handler listens again after an error, too (`Server.cpp:21-35`), so this holds exactly for a server on
  which `listen` was never called (`ServerDeletedIff`).
- The socket of a new channel is open as soon as the connection is accepted, one step before the accept
  handler adds the reference for the open socket
  (`asio/detail/reactive_socket_accept_op.hpp:59-67`, `Server.cpp:25`). A `close` in between releases a
  reference that was never added. The count equals the number of owners along a run exactly if this
  does not happen (`StepExact`, `RunExact`); `EarlyCloseMisuses` is the run that goes wrong. It needs a
  creator that keeps a `ptr` to the channel, which the `createChannel` in `main.cpp` does not. With the
  epoll reactor the first accept that completes runs its handler in the same call
  (`asio/detail/impl/epoll_reactor.ipp:633-651`), so there the gap also needs a second pending accept,
  that is `listen` called twice.
- `prepare` that throws may already have moved the bytes down without moving the stream pointers
  (`asio/basic_streambuf.hpp:313-331`). Every content of a given length survives exactly if the get
  offset is zero or at least the length (`TornKeepsContents`); `TearsByThrowing` is a buffer whose
  contents [2, 3] become [3, 3].
- Query keys are neither encoded nor decoded, so rendering and parsing is the identity exactly for maps
  whose keys contain no '&' or '=' (`RoundTrip`).
- The overflow check of the string cast rejects "0" for unsigned types, so printing and parsing is the
  identity exactly for the non-zero values (`PrintParse`), and for unsigned and signed types it lets
  some out-of-range numerals through. `CastExactly` says which, for every string: those in which each
  digit makes the offset value, modulo 2^w, greater than the value before. An accepted numeral gives
  its own value exactly if that is in range (`CastIsModular`); "300" as an unsigned byte gives 44, "255"
  as a signed byte gives -1.
- A flush that fails half-way keeps the whole put area, so a later flush sends its first part twice. The
  wire is right exactly if the timer had expired before the failed flush or its first send failed
  (`FlushTwice`); `SendsAByteTwice` puts [1, 2] and sends [1, 1, 2].
- An assignment uses its handles after it has released the old target. It goes wrong exactly if one of
  them is in an object that this release deletes (`Store.Assign`, `Store.AssignObject`). For `a = b` with
  `b` a member of the object `a` points to, as in `head = head->next`, that is the case exactly if `a`
  holds the only reference.

## Model

| member | source | states |
|---|---|---|
| ByteRegions.AddressAt | src/asio/buffer.hpp:385-396 | the byte at an offset of a buffer is the byte at that offset behind all bytes of the earlier buffers in the concatenation |
| ByteRegions.SliceOfRegion | src/asio/buffer.hpp:442-453 | a stretch of one buffer is a run of consecutive addresses of the flat view |
| BuffersIterator.FlatIndexOrder | src/asio/buffers_iterator.hpp:275-297 | flat indices order the cells (buffer, offset) lexicographically, so one index denotes one cell, with empty buffers anywhere |
| BuffersIterator.EveryIndexHasACell | src/asio/buffers_iterator.hpp:127-163 | every index from 0 to the total size denotes the end or a byte of a non-empty buffer |
| BuffersIterator.JumpIsSingleSteps | src/asio/buffers_iterator.hpp:312-445 | a jump by n and \|n\| single steps have the same displacement and stay in range in the same cases |
| BuffersIterator.Iterator.Begin | src/asio/buffers_iterator.hpp:127-144 | begin is position 0, past leading empty buffers |
| BuffersIterator.Iterator.End | src/asio/buffers_iterator.hpp:147-163 | end is the position of the total size, so end - begin is buffer_size |
| BuffersIterator.Iterator.Dereference | src/asio/buffers_iterator.hpp:301-304 | yields the byte at the iterator's position in the concatenation |
| BuffersIterator.Iterator.Increment | src/asio/buffers_iterator.hpp:313-333 | the assertion fails exactly at the end; otherwise the next cell, on a non-empty buffer or the end |
| BuffersIterator.Iterator.Decrement | src/asio/buffers_iterator.hpp:336-363 | the assertion fails exactly at position 0; otherwise an earlier non-empty buffer is always found |
| BuffersIterator.Iterator.Advance | src/asio/buffers_iterator.hpp:366-445 | some assertion fails exactly if the target is out of range; otherwise the cell of the target |
| BuffersIterator.Iterator.AdvanceForwards | src/asio/buffers_iterator.hpp:368-401 | the forward loop, with no conversion leaving the range of its type |
| BuffersIterator.Iterator.AdvanceBackwards | src/asio/buffers_iterator.hpp:402-444 | the backward loop terminates, and the branch for a reached beginning is never taken |
| BuffersIterator.Iterator.Plus | src/asio/buffers_iterator.hpp:230-254 | a new iterator displaced by n, in range or not, leaving this one alone |
| BuffersIterator.Iterator.Run | src/asio/buffers_iterator.hpp:185-227 | any run of moves fails exactly if a stop is out of range, and otherwise ends on the cell of the net displacement |
| BuffersIterator.OperatorsAgreeWithCells | src/asio/buffers_iterator.hpp:264-297 | == holds exactly for the same cell and < is the order of the cells |
| BuffersIterator.PlusDifference | src/asio/buffers_iterator.hpp:230-261 | a + (b - a) is the cell of b and trips no assertion |
| BufferCopy.BufferSize | src/asio/buffer.hpp:385-396 | the loop returns the length of the flat view |
| BufferCopy.CopyBuffer | src/asio/buffer.hpp:1295-1304 | one memcpy of the smaller size |
| BufferCopy.CopyBufferAtMost | src/asio/buffer.hpp:1761-1765 | one memcpy of the smallest of both sizes and the limit |
| BufferCopy.Copy | src/asio/buffer.hpp:1693-1736 | terminates, returns min(total target, total source), and leaves the memory of the byte-wise copy of that many bytes |
| BufferCopy.CopyAtMost | src/asio/buffer.hpp:2186-2231 | the same with a limit |
| BufferCopy.CopyToOne | src/asio/buffer.hpp:1402-1421 | one target: count and memory of the general copy on a one-element sequence |
| BufferCopy.CopyFromOne | src/asio/buffer.hpp:1573-1592 | one source: count and memory of the general copy on a one-element sequence |
| BufferCopy.CopyToOneAtMost | src/asio/buffer.hpp:1880-1885 | cutting the target first gives the limited general copy |
| BufferCopy.CopyFromOneAtMost | src/asio/buffer.hpp:2060-2065 | cutting the source first gives the limited general copy |
| BufferCopy.TrimKeepsPrefix | src/asio/buffer.hpp:718-729 | a buffer cut to max bytes takes part in any copy of up to max bytes like the whole one |
| BufferCopy.CopyContinues | src/asio/buffer.hpp:1707-1733 | a memcpy between two cursors n bytes in continues the byte-wise copy from n, because no source byte was overwritten |
| BufferCopy.CopyFlattened | src/asio/buffer.hpp:1693-1736 | with non-overlapping targets the flattened target becomes source[..n] + old target[n..]; the sources and all other memory are unchanged |
| Streambuf.Streambuf.constructor | src/asio/basic_streambuf.hpp:131-141 | an empty queue with the initial output area |
| Streambuf.Streambuf.Reserve | src/asio/basic_streambuf.hpp:299-337 | fails exactly if size() + n > max_size(); otherwise the contents are unchanged and n bytes fit; a failure tears the contents as stated by Torn |
| Streambuf.Streambuf.Prepare | src/asio/basic_streambuf.hpp:204-209 | throws exactly if size() + n > max_size() |
| Streambuf.Streambuf.Commit | src/asio/basic_streambuf.hpp:223-229 | appends the first n bytes of the output area, or all of it |
| Streambuf.Streambuf.ConsumeBytes | src/asio/basic_streambuf.hpp:238-245 | drops the first n bytes, or all of them, by advancing the get offset |
| Streambuf.Streambuf.Underflow | src/asio/basic_streambuf.hpp:254-265 | gives the first byte or end-of-file, makes it readable, changes no contents |
| Streambuf.Streambuf.Overflow | src/asio/basic_streambuf.hpp:274-297 | throws exactly if size() == max_size(), and then leaves the contents intact; otherwise appends the byte |
| Streambuf.Streambuf.ReadSizeHelper | src/asio/basic_streambuf.hpp:344-350 | as much as fits the maximum and the caller's cap, but no more than the larger of 512 and the free capacity; positive unless the buffer is full or the cap is zero |
| Streambuf.Streambuf.ReadSizeHelperGeneric | src/asio/basic_streambuf.hpp:356-361 | as much as fits the maximum and the caller's cap, but no more than 512 |
| Streambuf.Streambuf.PrepareForRead | src/asio/basic_streambuf.hpp:344-350 | prepare(read_size_helper(sb, m)) never throws |
| Streambuf.Streambuf.Run | src/asio/basic_streambuf.hpp:204-337 | any run of operations has the outcomes and contents of the bounded sequence: shifting and growing are not observable |
| Streambuf.Conservation | src/asio/basic_streambuf.hpp:204-297 | over any run, contents + bytes put equal bytes taken + contents, and the bound holds |
| Streambuf.TornKeepsContents | src/asio/basic_streambuf.hpp:312-331 | exactly when a throwing reserve preserves all contents of a length |
| Streambuf.TearsByThrowing | src/asio/basic_streambuf.hpp:312-331 | a buffer of maximum 4 with contents [2, 3] that a throwing prepare(3) changes to [3, 3] |
| ChannelLifetime.PerformKeepsHeld | src/Channel.cpp:12-70 | user code of any shape, from any state, keeps count minus owners, except for a close in the gap |
| ChannelLifetime.PerformIsSafe | src/Channel.cpp:12-70 | user code run while a reference is held never touches a deleted channel and never deletes it |
| ChannelLifetime.OutsideIsSafe | src/Channel.cpp:56-70 | the same for calls through a ptr, where the call may delete the channel at its end |
| ChannelLifetime.PerformKeepsShape | src/Channel.cpp:27-38 | txPending is the number of pending writes, a closed socket has nothing armed, and at most one read is pending |
| ChannelLifetime.ReadHandlerKeeps | src/Channel.cpp:94-114 | the read handler, re-arming receive included, keeps the count, the shape and safety |
| ChannelLifetime.WriteHandlerKeeps | src/Channel.cpp:34-49 | the write handler with both callbacks does |
| ChannelLifetime.WaitHandlerKeeps | src/Channel.cpp:81-88 | the timer handler does |
| ChannelLifetime.AcceptHandlerKeeps | src/Server.cpp:20-30 | the accept handler adds the socket's reference, connects, and starts receiving, whatever onConnect does |
| ChannelLifetime.StepExact | src/Channel.cpp:12-115 | one step keeps count = owners, the shape and safety if and only if it does not close in the gap, operations performed inside the starting call included |
| ChannelLifetime.RunExact | src/Channel.cpp:12-115 | so does every run |
| ChannelLifetime.HealthyMeans | src/Object.hpp:27-36 | count = owners, deleted at most once and exactly without owners, and no event can happen to a deleted channel |
| ChannelLifetime.NewIsHealthy | src/Server.cpp:12-18 | a channel is in that state when listen returns |
| ChannelLifetime.EarlyCloseMisuses | src/Server.cpp:20-30 | a close in the gap and dropping the only ptr delete the channel under its accept handler |
| ChannelLifetime.GapIsReached | src/asio/detail/reactive_socket_accept_op.hpp:59-67 | accepting a channel whose creator kept one ptr leads into the gap |
| ChannelLifetime.ClosedStep | src/Channel.cpp:56-115 | on a closed channel every step that starts nothing new, a dropped ptr or the read that re-arms itself included, lowers the number of steps left, unless it is one more call of close, which changes nothing |
| ChannelLifetime.ClosedProgress | src/Channel.cpp:56-115 | a closed channel that is not deleted has a step to make |
| ChannelLifetime.ClosedRunsToDeletion | src/Channel.cpp:56-115 | after close every such run is bounded, apart from calls of close and whenever ptrs are dropped, and one that cannot go on has deleted the channel |
| ChannelLifetime.CloseLeavesClosed | src/Channel.cpp:117-123 | a callback or call that closes leaves a closed channel, from which the run above starts |
| ChannelTraffic.SendStartsAWrite | src/Channel.cpp:12-34 | sendData starts one write and one wait with a reference each, aborts an earlier wait, counts the write in txPending, and changes nothing else |
| ChannelTraffic.ReceiveStartsARead | src/Channel.cpp:75-94 | receive starts one read and one wait with a reference each, and changes nothing else |
| ChannelTraffic.CloseAborts | src/Channel.cpp:56-70 | close of an open channel aborts every pending wait, read and write and releases one reference; a second close does nothing |
| ChannelTraffic.AbortsAreSilent | src/Channel.cpp:81-88 | the handler of an aborted wait or read calls nobody and gives back its reference |
| ChannelTraffic.ReadyWhenNothingPends | src/Channel.cpp:37-49 | onReadyToSend is called exactly if no write is pending after onError |
| ChannelTraffic.ReadGoesOn | src/Channel.cpp:105-114 | after a successful read exactly one read is pending, whatever onData does; a close in onData aborts it, because it was started before |
| ChannelTraffic.ConnectStartsReading | src/Server.cpp:24-30 | on a connected channel exactly one read is pending, whatever onConnect does; after a close in onConnect it fails, because it is started afterwards |
| ChannelTraffic.ReadPendingExactly | src/Channel.cpp:75-115 | in every run exactly one read is pending from the connection until a read handler ran without success, and otherwise none |
| ChannelTraffic.OpenAfterStep | src/Channel.cpp:56-70 | the socket is opened by the accept and closed by calls of close, and by nothing else |
| ChannelTraffic.NothingSentIsLost | src/Channel.cpp:12-115 | in every run sends plus writes pending before are write handlers run plus writes pending after, the same holds of waits, and at most one timer is armed |
| ChannelObject.TcpChannel.ForAccept | src/Server.cpp:12-18 | the references taken and given back around listen |
| ChannelObject.TcpChannel.SendData | src/Channel.cpp:12-50 | the in-place method refines sendData and starts one write and one wait with a reference each, aborting an earlier wait |
| ChannelObject.TcpChannel.Close | src/Channel.cpp:56-70 | refines close: everything armed is aborted and the socket's reference released once, after onError; nothing on a closed channel |
| ChannelObject.TcpChannel.Receive | src/Channel.cpp:75-93 | refines receive and starts one read and one wait with a reference each |
| ChannelObject.TcpChannel.AddReference | src/Object.hpp:27-29 | one more reference, and misuse on a deleted object |
| ChannelObject.TcpChannel.RemoveReference | src/Object.hpp:31-36 | one less, deleting on the last reference, and misuse on a deleted object |
| ChannelObject.TcpChannel.OnWaitDone | src/Channel.cpp:81-88 | refines the timer handler: onTimeout only on success, one release at the end in any case |
| ChannelObject.TcpChannel.OnWriteDone | src/Channel.cpp:37-49 | refines the write handler: onError on any error, onReadyToSend when no write is left, one release |
| ChannelObject.TcpChannel.OnReadDone | src/Channel.cpp:96-114 | refines the read handler; afterwards one read is pending exactly if this one was successful |
| ChannelObject.TcpChannel.OnAccepted | src/Server.cpp:20-30 | refines the accept handler; a connected channel then has one read pending |
| ChannelObject.TcpChannel.Loop | src/Channel.cpp:12-115 | in any run without a close in the gap the object is never used after deletion and deleted exactly without owners, nothing sent is lost, and once connected it reads until a read fails |
| ServerLifetime.ListenKeeps | src/Server.cpp:12-40 | listen adds one reference for one pending accept on one new channel, which waits exactly if the acceptor is open |
| ServerLifetime.AcceptHandlerStepKeeps | src/Server.cpp:20-39 | the accept handler keeps all counts right and an accept pending, whatever the callbacks do |
| ServerLifetime.ServerDeletedIff | src/Server.hpp:29-31 | in any run the server is deleted exactly if its last ptr is gone and listen was never called |
| ServerLifetime.CloseShuts | src/Server.cpp:43-49 | after close the acceptor is closed and no accept waits |
| ServerLifetime.ClosedServerAcceptsNothing | src/Server.cpp:12-49 | from then on both hold in every run, however often the accept handlers listen again, and no connection is made that was not made before |
| ServerLifetime.EveryListenMakesAChannel | src/Server.cpp:12-41 | in every run a channel is made for every call of listen, in callbacks too, and for every accept handler, and the acceptor is open exactly until close is called |
| ServerObject.Server.Listen | src/Server.cpp:12-41 | the added reference is owned by exactly one new pending accept, also on a closed acceptor; the channels stay healthy |
| ServerObject.Server.Close | src/Server.cpp:43-49 | the acceptor is closed and no accept waits any longer, but each still pending keeps its reference until its handler has run; nothing is deleted |
| ServerObject.Server.OnAcceptDone | src/Server.cpp:20-39 | whatever the callbacks do, the server survives its accept handler with an accept pending and all counts right |
| ServerObject.Server.Loop | src/Server.cpp:12-49 | in any run without a close in the gap the object is never used after deletion, its count is that of its owners, every listen makes a channel, nothing is accepted after a close, and it is deleted exactly if its last ptr is gone and listen was never called, closed or not |
| CountedHandles.Store.RemoveReference | src/Object.hpp:31-36 | releases one reference; on the last one deletes doomed objects only, each after all that pointed to it, and loses the handle being assigned only if that is in one |
| CountedHandles.Store.Delete | src/Object.hpp:32-35 | every member handle of a deleted object is destroyed, no other handle changes, and the order and doom of the deletions are kept |
| CountedHandles.Store.CarryOut | src/Object.hpp:31-36 | a release carried to its end has deleted exactly the doomed objects, and lost the handle being assigned exactly if it was in one |
| CountedHandles.DoomedIsLeastClosed | src/Object.hpp:31-36 | the doomed objects are the least set from which no further object loses its last reference |
| CountedHandles.Store.Construct | src/ptr.hpp:13-21 | construction from a pointer or a handle |
| CountedHandles.Store.MoveConstruct | src/ptr.hpp:23-25 | a move leaves all counts as they are |
| CountedHandles.Store.Destroy | src/ptr.hpp:33-36 | a destroyed local gives up its reference: exactly the doomed objects go, in order |
| CountedHandles.Store.AssignObject | src/ptr.hpp:42-56 | assignment of null or a pointer goes wrong exactly if the handle is in a doomed object; otherwise exactly the doomed objects go |
| CountedHandles.Store.Assign | src/ptr.hpp:58-75 | assignment, self-assignment included, goes wrong exactly if one of its handles is in a doomed object; from any handle to a member of its object exactly if it holds the only reference |
| CountedHandles.Store.Execute | src/ptr.hpp:11-75 | what every handle points to after each operation: a copied or assigned one points where the other does, a moved-from one nowhere, all others stay unless their object is gone; a copy adds one to its target's count, a move nothing |
| CountedHandles.NextMeans | src/ptr.hpp:11-75 | the same of the heap without counts |
| CountedHandles.Store.Run | src/ptr.hpp:11-75 | a run of operations uses a freed handle exactly if the run without counts has an unsafe operation; otherwise objects, handles and counts are those of that run |
| CountedHandles.LocalsAreSafe | src/ptr.hpp:11-75 | runs that assign only between locals have no unsafe operation |
| CountedHandles.Store.LiveIffReferenced | src/Object.hpp:27-36 | an object that ever had a handle is live exactly while some handle points to it, and is deleted exactly once |
| CountedHandles.Unhook | src/ptr.hpp:33-36 | taking a handle away turns what it counted for into one reference to release |
| CountedHandles.Bury | src/Object.hpp:32-35 | an object that loses its last reference is doomed, and everything that pointed to it went before |
| CountedHandles.ReleaseIsExact | src/Object.hpp:31-36 | when a release has come to its end, all doomed objects and their members are gone |
| QueryCodec.DecodeQuery | src/Gateway.cpp:8-35 | decodes any part of a string; if its escapes are complete, the part is a way to write the result |
| QueryCodec.EscapeIsItsByte | src/Gateway.cpp:21-32 | an escape with hex digits n and m of either case is the byte 16 n + m |
| QueryCodec.HexValueExactly | src/Gateway.cpp:24-31 | hex digits of either case have their value, other characters none |
| QueryCodec.DecodeExactly | src/Gateway.cpp:8-35 | a text with complete escapes decodes to a string exactly if it writes it: each byte literally, a space as '+', any byte as an escape of either case |
| QueryCodec.DecodeIsCut | src/Gateway.cpp:16-19 | a '%' too close to the end cuts the text |
| QueryCodec.EncodeQuery | src/Gateway.cpp:39-60 | encoding |
| QueryCodec.DecodeEncode | src/Gateway.cpp:8-60 | decoding an encoded string gives it back, for every byte string, wherever it stands |
| QueryCodec.DecodeEncodeAnyCase | src/Gateway.cpp:8-60 | the same of every text that differs from the encoded string in the case of its escape digits |
| QueryCodec.EncodeByteExactly | src/Gateway.cpp:41-57 | which bytes encoding leaves alone, and what becomes of the others |
| QueryCodec.EncodedIsFree | src/Gateway.cpp:39-60 | encoded strings contain no '&' and no '=' |
| QueryCodec.BuildBody | src/Gateway.cpp:114-121 | the body is the rendered pairs in iteration order |
| QueryCodec.ParseQuery | src/Gateway.cpp:78-97 | the splitting loop parses the query |
| QueryCodec.ArgumentExactly | src/Gateway.cpp:79-96 | an argument up to the next '&' sets the parameter before its first '=' to what is decoded behind it, overriding an earlier value, and is ignored without '=' |
| QueryCodec.ParsedKeysAreFree | src/Gateway.cpp:84-94 | no parsed key contains '&' or '=' |
| QueryCodec.RoundTrip | src/Gateway.cpp:78-121 | parsing the rendered body gives the map back if and only if no key contains '&' or '=' |
| QueryCodec.ParseIsStable | src/Gateway.cpp:78-121 | for any query, rendering its parameters and parsing again changes nothing |
| QueryCodec.PostBack | src/Gateway.cpp:78-121 | the two loops composed restore the parameters |
| IntegerCast.CastFromString | src/cast.hpp:9-43 | the digit loop computes Cast |
| IntegerCast.UnsignedCastIsModular | src/cast.hpp:9-43 | an accepted unsigned numeral, with or without plus sign, gives its decimal value modulo 2^w |
| IntegerCast.CastIsModular | src/cast.hpp:9-43 | for every type, an accepted string is a numeral and gives its value truncated to the type: the value itself exactly if that is in range |
| IntegerCast.CastExactly | src/cast.hpp:14-40 | for every type and string, when exactly the overflow check accepts and what the result then is |
| IntegerCast.OneDigitMore | src/cast.hpp:22-32 | one more digit is accepted exactly if it passes the check, whatever overflow there was before |
| IntegerCast.PlusSaysNothing | src/cast.hpp:22-23 | a plus sign in front of a numeral changes nothing |
| IntegerCast.MinusNegates | src/cast.hpp:15-38 | a minus sign negates the value, with the check for negative numerals |
| IntegerCast.WithoutDigits | src/cast.hpp:12-40 | the empty string and a sign alone give 0, any other single non-digit is refused |
| IntegerCast.UnsignedCastAcceptsExactly | src/cast.hpp:22-29 | among the digit strings that fit, exactly those with a non-zero first digit are accepted, with their value |
| IntegerCast.SignedCastIsExact | src/cast.hpp:18-40 | a signed type accepts every numeral in its range and gives its value |
| IntegerCast.ThreeDigitsPerByte | src/cast.hpp:49 | 256^k < 10^(3k) |
| IntegerCast.CastToString | src/cast.hpp:47-67 | prints the numeral, and sign, digits and NUL fit the buffer |
| IntegerCast.DigitsDenote | src/cast.hpp:53-59 | the printed digits denote the value and have no leading zero |
| IntegerCast.PrintParse | src/cast.hpp:9-67 | printing and parsing is the identity if and only if the type is signed or the value is not zero |
| IntegerCast.ThreeHundredAsByte | src/cast.hpp:24-32 | an out-of-range numeral that CastExactly accepts: "300" as an unsigned byte is 44 |
| IntegerCast.TwoFiftyFiveAsSignedByte | src/cast.hpp:24-38 | one for a signed type: "255" as a signed byte is -1 |
| SocketFlush.FailedFlush | src/asio/basic_socket_streambuf.hpp:367-390 | a failing flush has sent nothing exactly if the timer had expired before or the first answer is a failure, and reports the failure of its last send or else an abort |
| SocketFlush.SocketStreambuf.Flush | src/asio/basic_socket_streambuf.hpp:367-390 | terminates, with the outcome and the number of bytes sent determined by the network's answers; success sends the whole put area, failure a proper prefix of it and keeps it; an expired timer always fails, a network without errors never |
| SocketFlush.SocketStreambuf.Overflow | src/asio/basic_socket_streambuf.hpp:332-402 | success: wire + put area grow by the character; failure: the put area is as before and only a prefix of it was sent; unbuffered, one send of the character decides |
| SocketFlush.SocketStreambuf.PutByte | src/asio/basic_socket_streambuf.hpp:393-400 | nothing is sent before 512 bytes are pending |
| SocketFlush.SocketStreambuf.SetUnbuffered | src/asio/basic_socket_streambuf.hpp:409-419 | refused exactly while something is pending |
| SocketFlush.SocketStreambuf.Run | src/asio/basic_socket_streambuf.hpp:332-419 | over any run without failure wire + put area are all bytes put; the first failure leaves the part already sent in the put area |
| SocketFlush.SocketStreambuf.FlushAgain | src/asio/basic_socket_streambuf.hpp:366-391 | flushing after a failure sends the whole put area again |
| SocketFlush.SocketStreambuf.FlushTwice | src/asio/basic_socket_streambuf.hpp:366-391 | after a failed and a successful flush the wire is right exactly if the timer had expired before the first or its first answer was a failure |
| SocketFlush.SendsAByteTwice | src/asio/basic_socket_streambuf.hpp:366-391 | two pending bytes of which one is sent twice |

## Left out

- Sizes and positions other than the iterator's are unbounded numbers: the wrap-around of a pointer sum in `commit` or `consume` with an enormous argument is not modelled, and their amounts are required to fit the int they are converted to.
- BufferCopy: the bytes copied are counted without the width of size_t, and null buffers have no address of their own.
- Streambuf.Streambuf.Run: stops at the first prepare that throws, because the contents after it are not those of a queue; the contents at that point are stated by Reserve.
- Streambuf.Streambuf.Commit: amounts (after the cut to what is there) that do not fit an int are excluded; within a run no more is committed than was prepared and filled, as its documentation asks.
- Streambuf.Streambuf.ConsumeBytes: amounts (after the cut to what is there) that do not fit an int are excluded.
- CountedHandles: objects and handles are numbers in one store rather than heap cells, so that a handle can die with the object it lives in; handles of a derived type (the templated overloads) behave like the plain ones.
- CountedHandles.Store.Assign: what happens after a freed handle was used is not modelled; a run ends there.
- ServerObject: the channels of a server are kept by their states, not as objects.
- ServerLifetime: user code that acts on another channel from inside a handler is one event of that channel, which has the same effect because channels share no state; the accept handler's ptr to its channel is dropped at the start of its step rather than at the end.
- SocketFlush.SocketStreambuf.FlushTwice: the new expiry time may be set between the flushes, but the connecting that a socket closed by its timer needs is not modelled.
- ChannelLifetime: the bytes sent and received, `shutdown`, and the time until a timer expires; a pending write is one operation however many partial writes it takes; the destructor's closing of the socket and the timer, which have nothing pending by then.
- ChannelLifetime.ClosedRunsToDeletion: bounds every run and shows that a run can only stop at the deletion; that the loop goes on while something is queued is the loop's contract.
- Atomic memory orders: channels and the server run on one loop thread.
- SocketFlush: connecting, closing, reading and the expiry timer itself; a send that succeeds with zero bytes, with which the loop would not end.
- IntegerCast: the cast between pointers.
- QueryCodec: URL parsing, HTTP, and the calls to the network, whose parameters are maps here.
- Sockets, timers, acceptors, `io_service`, strands, the Z-Wave and EnOcean protocols, and `Parameters`, which only wraps a map.
