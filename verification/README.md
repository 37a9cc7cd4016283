# pb-RPC: a verified model

pb-RPC is a C++ RPC framework: a hand-written frame codec ("TinyPB") over a growable byte buffer, connections
driven by an event loop with timers, request/reply matching by message id, and a client-side index of the
least-loaded server of each service. This project models those parts in Dafny and proves what they guarantee.
`dafny verify dfyconfig.toml` checks everything.

## How the model is laid out

Code that changes things step by step is a class or a method with the same fields, branches and loops, proved
against functions on values; the theorems are lemmas about those functions, over all inputs or over all runs.

| files | what they hold |
|---|---|
| `Bytes.dfy`, `Buffer.dfy` | bytes and 32-bit integers with explicit narrowing; the buffer as an array and two indices standing for a queue |
| `TinyPB.dfy`, `TinyPBStream.dfy` | the frame format and the decoding of a stream as functions; the theorems about streams |
| `TinyPBCoder.dfy` | `encode` and `decode` in place on a buffer: search loop, eight guards, absolute 32-bit indices |
| `Connection.dfy`, `Dispatcher.dfy`, `TcpServer.dfy` | read and write events of a connection, dispatch of requests, the reply loop |
| `RpcClient.dfy`, `RpcChannel.dfy`, `RpcTimers.dfy`, `RpcWorld.dfy` | the life of a call as a state machine and as an object; calls with the timer queue of their loop; one connection end to end |
| `TimerQueue.dfy`, `TimerRuns.dfy`, `Time.dfy` | the timer queue on values, its guarantees, and the objects |
| `ServerNode.dfy`, `Registry.dfy`, `RpcServerList.dfy` | the lazy heap, the text format of registry entries, the client's list of servers |
| `EventLoop.dfy`, `KeepAlive.dfy`, `MsgId.dfy`, `Decimal.dfy` | the wakeup protocol with interleaved producers, keepalive eviction, message ids, decimal text (`Options.dfy` is shared) |

The environment is a parameter everywhere: what a read delivers or a write takes, the clock, random digits,
service bodies (arbitrary functions of the request bytes), which payloads a response type parses, and `stod`.

## Promises that hold only under a condition

- The recovery branch of `decode` for a failed guard (src/coder/tinypb_coder.cpp:189-192) is never entered. A
  delimited frame is taken apart exactly when its two inner lengths are not negative and leave room for the fixed
  parts; every other delimited frame fails an assertion of the buffer first (`TinyPBCoder.ReadFields`, witness
  `TinyPBStream.ShortFrameFaults`).
- A decode call faults exactly at a start byte whose end index lies beyond the 32-bit range or in front of the array,
  or belongs to an end marker around fields that do not fit (`TinyPBStream.FaultInArrayIsExplained`). At a length
  that is not positive the bytes left in front of the window decide whether it faults or goes on
  (`TinyPBStream.DecodeArrayAgrees`, witness `TinyPBStream.StaleBytesDecide`); everywhere else the window alone does
  (`TinyPBStream.FaultIsExplained`). A frame that fits its own length field can still overrun
  the index range from where its window stands; `TinyPBStream.HonestInput` and `RpcWorld.DownIfOverrun` say when,
  and `TcpServers.Serve` what rules it out for good.
- A call's closure runs exactly once when its timer has been served, unless a reply that does not parse came before
  the timeout. The reply callback then returns early with the timer already cancelled
  (`RpcClient.ClosureRunsOnceWhenDrained`, witness `RpcClient.ClosureCanBeLost`).
- It runs at most once exactly unless the channel was initialised with another controller than the call's and a reply
  follows the timeout (`RpcClient.ClosureRunsAtMostOnce`, witness `RpcClient.ClosureCanRunTwice`). The `CALLRPRC`
  macro passes the same controller to both.
- A timer event added when it is already due, ahead of all others, is not served in time: the timer is then armed
  for the default timeout (`TimerRuns.AddKeeps` gives the exact condition, `TimerRuns.DueEventIsLate` the delay).
- A registered service is found by its full name exactly when that name has no dot (`Dispatcher.NameIsRecovered`,
  `Dispatcher.DottedServiceIsNotFound`).
- `parseukv` recovers the service of a registered entry exactly when the base directory has one component, or a
  coincidence makes the part read in its place equal (`Registry.RegistrationRoundTrip`, witness
  `Registry.DeepBaseDirectoryHidesService`).
- A server that goes down leaves the client's list exactly when the watcher's event holds the value it registered;
  the delete callback reads the server from there (`RpcServerLists.GoneServerIsKept`).

## Model

| member | source | states |
|---|---|---|
| Bytes.Int32RoundTrip | src/common/Buffer.h:160-187 | a 32-bit integer written in network order and read back is itself |
| Bytes.BytesRoundTrip | src/common/Buffer.h:160-187 | any four bytes are the network-order form of the integer read from them |
| Bytes.BigEndian | src/common/Buffer.h:183-187 | the four bytes of a 32-bit integer weigh 2^24, 2^16, 2^8 and 1 in the order in which they are written, most significant first |
| Bytes.BigEndianRead | src/common/Buffer.h:160-166 | and are read with the same weights, as a signed number |
| Bytes.WireOrder | src/common/Buffer.h:183-187 | integers of the same sign are ordered on the wire byte by byte as they are as numbers |
| Bytes.WireSamples | src/common/Buffer.h:160-187 | 0x01020304 is 1, 2, 3, 4 and 300 is 0, 0, 1, 44 on the wire, in both directions |
| Buffers.Buffer.constructor | src/common/Buffer.h:63-69 | a new buffer is an empty queue of 1024 bytes capacity |
| Buffers.Buffer.MakeSpace | src/common/Buffer.h:38-56 | growing or moving the window never changes the queue and leaves room for the bytes asked for; which of the two happens is decided by the free space on both sides |
| Buffers.Buffer.Retrieve | src/common/Buffer.h:99-111 | exactly the first bytes of the queue go, no byte moves, and both indices are zero exactly when the queue is drained |
| Buffers.Buffer.WriteToBuffer | src/common/Buffer.h:116-122 | the bytes join the end of the queue, through growth and in-place compaction |
| Buffers.Buffer.RetrieveAsString | src/common/Buffer.h:131-137 | the bytes returned are the front of the queue, which they leave |
| Buffers.Buffer.ReadInt32 | src/common/Buffer.h:139-144 | the integer returned is the big-endian reading of the first four bytes, which leave the queue |
| Buffers.Buffer.ReadInt8 | src/common/Buffer.h:153-158 | the signed reading of the first byte, which leaves the queue |
| Buffers.Buffer.AppendInt32 | src/common/Buffer.h:183-187 | four big-endian bytes join the queue |
| Buffers.Buffer.AppendInt8 | src/common/Buffer.h:195-198 | one byte joins the queue |
| Buffers.Buffer.ReadFd | src/common/Buffer.cpp:66-97 | what the socket delivered joins the queue in order, also when its tail landed in the side buffer; a failed read changes nothing |
| Buffers.Buffer.WriteFd | src/common/Buffer.cpp:99-108 | the bytes the socket took are the front of the queue, which keeps the rest |
| TinyPB.ParseOfFrame | src/coder/tinypb_coder.cpp:15-31 | a frame that fits the length fields is well-formed and is taken apart into exactly the message it was made from: type, id, method, error code, payload, check sum |
| TinyPB.FrameOfParse | src/coder/tinypb_coder.cpp:79-187 | conversely, a well-formed frame with its markers and length is byte for byte the frame of the message read from it |
| TinyPB.FrameFields | src/coder/tinypb_coder.cpp:15-31 | where each field of a message stands in its frame |
| TinyPB.SampleFrame | src/coder/tinypb_coder.cpp:10-31 | one message with something in every field, byte by byte |
| TinyPB.LongFrameHeader | src/coder/tinypb_coder.cpp:15-19 | a frame of 300 bytes begins with 02 00 00 01 2C |
| TinyPB.EmptyIdIsReplaced | src/coder/tinypb_coder.cpp:10-12 | a message without an id travels with the id "123456789", and every other message as it is |
| TinyPB.WideArrayStalls | src/coder/tinypb_coder.cpp:47-75 | a write index beyond the largest `int` stops decoding for good: no message, nothing consumed, and a fault only if the read index is beyond it too |
| TinyPBStream.FindFrameAppend | src/coder/tinypb_coder.cpp:47-73 | bytes that arrive later never change where the search found a frame, or that it skipped a candidate |
| TinyPBStream.FindFrameIsFirst | src/coder/tinypb_coder.cpp:47-73 | the search stops at the first position that is neither without a start byte nor a complete candidate lacking its end marker: it passes over nothing else and never past that position |
| TinyPBStream.FindInArrayIsFirst | src/coder/tinypb_coder.cpp:47-73 | the search in the array stops at the first index that is neither without a start byte nor a candidate whose end index lacks the end marker, also among candidates of negative length |
| TinyPBStream.DecodeAppend | src/coder/tinypb_coder.cpp:41-196 | decoding a longer stream repeats all decisions taken on a shorter one and goes on from where that stopped |
| TinyPBStream.DecodeWithinRange | src/coder/tinypb_coder.cpp:47-60 | where the window stands in the buffer, and hence the 32-bit index arithmetic, does not influence a decode that meets no fault |
| TinyPBStream.FaultsAtLater | src/coder/tinypb_coder.cpp:47-60 | a window that faults at one position in its array faults at every later one |
| TinyPBStream.DecodeArrayAgrees | src/coder/tinypb_coder.cpp:39-197 | a decode call on the array does what its window determines, whatever stale bytes stand before it, unless it stops at a length that is not positive; it never faults where the window alone would not, and its messages start with those of the window |
| TinyPBStream.DecodeInTwo | src/coder/tinypb_coder.cpp:39-197 | decoding two pieces one after the other, keeping the leftover, equals decoding them at once, faults included |
| TinyPBStream.IncrementalIsBatch | src/net/Connection.cpp:96-123 | for any stream, garbage and faults included, and any way of cutting it into reads, the messages, the bytes held back and the fault of the window decode, which ends at a length that is not positive, are those of one decode of the whole stream |
| TinyPBStream.NoiseInFront | src/coder/tinypb_coder.cpp:49-74 | garbage without a start byte in front of a stream changes neither the messages nor the leftover, at any position in the index range |
| TinyPBStream.FrameInFront | src/coder/tinypb_coder.cpp:76-193 | a complete frame at the front is taken off whole, whatever bytes its strings contain, if and only if its end is within the index range; otherwise the decode faults there |
| TinyPBStream.PartOfFrameIsKept | src/coder/tinypb_coder.cpp:54-71 | a proper prefix of a frame yields nothing and is kept byte for byte; it faults if and only if its length has arrived and points beyond the index range |
| TinyPBStream.RoundTripWithNoise | src/coder/tinypb_coder.cpp:39-197 | frames with noise around them and a part of one more frame behind decode to exactly the messages, in order, and leave exactly that part; a fault occurs if and only if that part overruns the index range |
| TinyPBStream.RoundTrip | src/coder/tinypb_coder.cpp:5-197 | decoding what `encode` wrote, followed by a proper prefix of a further frame, yields the batch with empty ids replaced and leaves the prefix, with the same exact fault condition |
| TinyPBStream.PrefixOfEncoding | src/coder/tinypb_coder.cpp:5-197 | any prefix of an encoded batch decodes to exactly the messages complete in it and keeps a part of the next frame; a fault occurs if and only if the length of that frame has arrived and overruns the index range |
| TinyPBStream.PrefixInArray | src/coder/tinypb_coder.cpp:39-197 | the same for the decode call on the array, whatever stands before the window |
| TinyPBStream.HonestInput | src/net/Connection.cpp:96-123 | a receiver fed the frames of some messages in any pieces has a prefix of them; one more read at array index `base` faults if and only if the frame in progress has its length there and ends beyond the index range |
| TinyPBStream.DelimitedIsMarked | src/coder/tinypb_coder.cpp:49-73 | a delimited frame starts with 0x02, ends with 0x03, announces its own length, and has at least six bytes |
| TinyPBStream.ConsumedBytesAreFrames | src/coder/tinypb_coder.cpp:39-197 | the bytes any decode consumes, up to a fault if there is one, are the frames of the messages it returns, in order, with the skipped bytes between them, so no message is invented and no byte used twice |
| TinyPBStream.FaultIsExplained | src/coder/tinypb_coder.cpp:47-193 | decoding a window alone faults if and only if it stops at a start byte whose length is not positive, points beyond the index range, or delimits a frame with inner lengths that do not fit; otherwise it stops where a frame can still arrive |
| TinyPBStream.FaultInArrayIsExplained | src/coder/tinypb_coder.cpp:47-193 | the decode call itself, stale bytes included, faults if and only if it stops at a start byte whose end index lies beyond `int` or in front of the array, or is that of an end marker, stale or not, around fields that do not fit; otherwise it stops where a frame can still arrive |
| TinyPBStream.StaleBytesDecide | src/coder/tinypb_coder.cpp:57-70 | five bytes with a length of -1 fault after one stale byte and are passed over after another |
| TinyPBStream.ShortFrameFaults | src/coder/tinypb_coder.cpp:76-193 | the six bytes 02 00 00 00 06 03 are a delimited frame that cannot be taken apart, and a stream that starts with them faults at once |
| TinyPBCoder.Encode | src/coder/tinypb_coder.cpp:5-36 | the frames of the batch join the buffer in order, each empty id replaced by the fallback id, also in the messages themselves |
| TinyPBCoder.EncodeOne | src/coder/tinypb_coder.cpp:15-31 | the eleven appends add up to the frame that decoding is proved to undo |
| TinyPBCoder.Search | src/coder/tinypb_coder.cpp:43-73 | the loop over absolute indices finds the first frame as `FindInArray` defines it: an overflowing or negative end index leads outside the array, and a length that is not positive meets whatever byte stands before the candidate |
| TinyPBCoder.ReadId | src/coder/tinypb_coder.cpp:80-110 | guards 1 to 3: with them passed the cursor equals the index variable and the id is the announced bytes; a negative id length or an overflowing sum is a fault; where the constant offsets wrap at the limit of `int`, nothing is left to read |
| TinyPBCoder.ReadMethod | src/coder/tinypb_coder.cpp:112-128 | guards 4 and 5: the name is read exactly when its length is not negative and ends inside the frame; once a guard has failed, no wrap of the sums can bring the payload length back into reach |
| TinyPBCoder.ReadRest | src/coder/tinypb_coder.cpp:130-181 | guards 6 to 8: they succeed exactly if the two inner lengths leave room for the fixed parts, and everything else faults, because the payload index always is the end index minus 4 |
| TinyPBCoder.ReadFields | src/coder/tinypb_coder.cpp:76-181 | a delimited frame, of any announced length, is read without fault if and only if it is well-formed; the reads then end exactly at the end marker, without a drain reset in between |
| TinyPBCoder.ReadFrame | src/coder/tinypb_coder.cpp:76-194 | a well-formed frame yields its message and exactly its bytes leave the buffer; the recovery branch is dead |
| TinyPBCoder.Decode | src/coder/tinypb_coder.cpp:39-197 | the nested loops on the buffer compute the decoding of its array from the read index on: same messages, same leftover, and a fault exactly if that has one; a write index beyond `int` stops decoding for good, without a fault |
| Connections.RegisterAppend | src/net/Connection.cpp:301-305 | registering one more request keeps an entry already under its id and otherwise adds one |
| Connections.MatchAppend | src/net/Connection.cpp:186-198 | one more reply runs the callback still registered under its id and forgets it, and nothing otherwise |
| Connections.Connection.constructor | src/net/Connection.cpp:5-15 | a new connection has received, decoded, submitted and written nothing |
| Connections.Connection.PushReadMessage | src/net/Connection.cpp:301-305 | a callback is registered under the id unless the id already has one |
| Connections.Connection.RegSend | src/net/Connection.cpp:210-219 | the batch is submitted behind all earlier ones and write interest is on; a closed connection takes nothing; bytes written and waiting remain the frames of everything submitted |
| Connections.Connection.SendMessage | src/net/Connection.cpp:221-259 | a client registers every queued request, turns on read interest and submits it before any byte leaves; then exactly the bytes the socket takes leave, in order, and write interest ends if and only if none is left; conservation of bytes is kept |
| Connections.LeavingIsLeast | src/net/Connection.cpp:242-258 | all that waits leaves, or exactly as much as the socket takes before it is full for the first time |
| Connections.Connection.OnMessage | src/net/Connection.cpp:96-123 | for any pattern of partial and interrupted reads, one decode of the old window and all that arrived: the fault, the messages and the leftover are exactly what the array determines, and unless the window strays, what the stream of all bytes received determines; replies run the matching callbacks; end of file closes without parsing; the array grows to no more than its window and one side buffer |
| Connections.Connection.ParseMsg | src/net/Connection.cpp:125-200 | one decode call with exactly the outcome of the array; the connection is in step with everything received or, once a decode has strayed, has all the messages of a stream that is stuck at a length that is not positive; a server hands on exactly the new messages, a client runs and forgets exactly the callbacks they match |
| Connections.OutcomeOfDecode | src/net/Connection.cpp:125-200 | a decode that does not stray does exactly what its window determines, wherever the window stands |
| Connections.InPlaceIsBatch | src/net/Connection.cpp:96-123 | the in-place decode of any stream in any pieces: unless a call strays, the outcome is that of one decode of the whole stream, whatever stood in front of the windows; one that strays faults or has all the messages of that decode |
| Connections.Connection.HonestRead | src/common/Buffer.cpp:66-97 | a connection that got nothing but frames, whose array is no larger than a frame, a read and a side buffer, cannot fault in one more read, and the array stays so |
| Dispatcher.NameIsRecovered | src/rpc/rpc_dispatcher.cpp:108-125 | the service and method of a joined full name are recovered if and only if the service name contains no dot |
| Dispatcher.ResponseIsForRequest | src/rpc/rpc_dispatcher.cpp:5-91 | a response carries its request's id, type and method; it reports success exactly for a heartbeat or a registered method that served the payload, and then carries what that produced |
| Dispatcher.FailureIsExplained | src/rpc/rpc_dispatcher.cpp:21-82 | each error code is returned exactly for its cause: no dot in the name, no such service or method registered, payload not parsed, response not serialized; and what payload comes with it |
| Dispatcher.CallIsServed | src/rpc/rpc_dispatcher.cpp:5-91 | a request of any type but 1 for a registered method gets, under its own id, type and name, what the method made of its payload with code 0, or code 10000003 or 10000004 |
| Dispatcher.CallIsRefused | src/rpc/rpc_dispatcher.cpp:21-48 | one for nothing registered gets an empty payload with code 10000008, and one whose name has no dot with 10000010 |
| Dispatcher.HeartbeatIsAnswered | src/rpc/rpc_dispatcher.cpp:5-19 | a message of type 1 gets an empty success under its own id |
| Dispatcher.DottedServiceIsNotFound | src/rpc/rpc_dispatcher.cpp:21-48 | whatever is registered, a call of a service with a dot in its name reports not found, if and only if no service named by the part before the first dot has a method named by all the rest |
| Dispatcher.Dispatch | src/rpc/rpc_dispatcher.cpp:5-91 | filling the response field by field with early returns yields the response of which `CallIsServed`, `CallIsRefused` and `HeartbeatIsAnswered` speak |
| Dispatcher.OnMessage | src/net/TcpServer.cpp:157-170 | exactly one reply per request, in batch order |
| TcpServers.Accept | src/net/TcpServer.cpp:41-61 | a new server connection owes no answer, and its buffers are new and small |
| TcpServers.HandleMessage | src/net/TcpServer.cpp:102-106 | bytes written and waiting are the frames of the responses to exactly the requests decoded, in whatever pieces the input arrives; the event faults exactly if decoding the array does, and neither faults nor strays unless the window itself overruns, or holds a bad length or an ill-formed frame |
| TcpServers.HandleHonestMessage | src/net/TcpServer.cpp:102-106 | for a peer that sends the frames of any messages, with two frames, two reads and a side buffer within the index range, a read event does not fault, and the connection remains one of which this can be said again |
| TcpServers.HandleWrite | src/net/Connection.cpp:221-259 | the connection remains answered after any partial write, and how many bytes have left |
| TcpServers.Serve | src/net/Channel.cpp:78-91 | the whole life of such a connection: in any alternation of reads and writes, in any pieces, no event ever faults, and what the socket took and what waits are the frames of the responses to exactly the messages complete in the bytes received; a last write in which the socket takes all leaves nothing waiting |
| RpcClient.RunKeepsOk | src/net/Connection.cpp:186-259 | over every run: a registered or queued entry belongs to a call still waiting for its first reply, or to a heartbeat, and carries its own message and id; queued ids are distinct and not registered |
| RpcClient.PingIsSent | src/net/TcpClient.cpp:113-131 | a heartbeat is queued as a message of type 1 under its id, and once withdrawn its reply is handed to nobody |
| RpcClient.ClosureRunsAtMostOnce | src/rpc/rpc_channel.cpp:87-129 | in every interleaving of push, send, heartbeat, timeout, reply and duplicate reply, from any peer, a closure runs at most once if the channel was initialised with the controller of the call, and twice if and only if it was not and a reply that parses follows the timeout; what each run sees |
| RpcClient.ClosureRunsOnceWhenDrained | src/rpc/rpc_channel.cpp:87-129 | once the timer is served the number of runs is exact: none if and only if a reply that does not parse came before the timeout, two in the case of the row above, one otherwise; response types may differ from call to call |
| RpcClient.ControllerHolds | src/rpc/rpc_channel.cpp:89-123 | over every run, whether or not a closure runs: the controller has no error before anything happened, 10000007 after a timeout, 10000004 after a reply that does not parse, and otherwise the code of the reply, whose payload is then the response |
| RpcClient.ClosureCanBeLost | src/rpc/rpc_channel.cpp:104-115 | a run in which the closure never runs |
| RpcClient.ClosureCanRunTwice | src/rpc/rpc_channel.cpp:89-123 | a run in which the closure runs twice, after a timeout on a channel initialised with another controller |
| RpcTimers.RunKeeps | src/rpc/rpc_channel.cpp:89-105 | over every run of starts, sends, replies, operations on other events and timer callbacks, a call's timer waits in the queue exactly while it is pending, is cancelled there exactly when a reply has come, and is due at the call's deadline |
| RpcTimers.StartAddsCall | src/rpc/rpc_channel.cpp:89-97 | in every state a call with an id of its own can start, with its timer in the queue due one period later |
| RpcTimers.ArmedForCalls | src/net/TIme.cpp:23-179 | in every reachable state the timer descriptor is armed for no later than the deadline of any call whose timer is pending |
| RpcTimers.FiredAreTimeouts | src/net/TIme.cpp:78-139 | the callbacks of calls that a timer event runs are exactly the timeouts of the calls past their deadline that no reply has reached |
| RpcTimers.DeadlineServesCall | src/rpc/rpc_channel.cpp:89-125 | once the descriptor has been served at or after a call's deadline, however the run went and goes on, the closure has run as often as `ClosureRunsOnceWhenDrained` says |
| RpcChannels.RpcChannel.CallMethod | src/rpc/rpc_channel.cpp:26-131 | on any channel, used or not: with a foreign controller nothing happens; otherwise code 10000001 without a connection, else 10000011 on a channel not initialised, else 10000004 without a serialized request, with no timer and nothing queued; else the timer is pending and the request is queued under its id with type 0, which on an unused channel is the new call of the state machine |
| RpcChannels.RpcChannel.HandleTimeout | src/rpc/rpc_channel.cpp:89-96 | the controller is cancelled with code 10000007 and the closure runs: the timeout step of the call |
| RpcChannels.RpcChannel.HandleSent | src/rpc/rpc_channel.cpp:100-127 | the reply callback is registered under the id of the request that was sent, also when the channel has a newer one, and read interest is on |
| RpcChannels.RpcChannel.HandleReply | src/rpc/rpc_channel.cpp:104-125 | the timer is cancelled; a payload that does not parse sets code 10000004 and nothing else; otherwise the response is set, and the code if the reply has one, and the closure runs unless the controller it asks was cancelled by the timeout: the reply step of the call |
| RpcWorld.PlayKeepsGood | src/net/Connection.cpp:125-259 | over every run, whatever the pieces, their place in the buffers and the serving order: both streams carry exactly what was encoded, requests and replies on the way belong to their calls, and nothing decoded is forgotten |
| RpcWorld.EndToEnd | src/net/TcpServer.cpp:157-170 | over every run a reply handed to a call's callback is exactly the response to that call's own request, and the closure sees nothing but the timeout or that response, once if the controllers are the same |
| RpcWorld.StreamsAreFaithful | src/net/Connection.cpp:96-259 | over every run, faults included, what was decoded is a prefix of what was encoded, and all of it when nothing is under way, in both directions |
| RpcWorld.DownIfOverrun | src/coder/tinypb_coder.cpp:47-60 | from every reachable state a read event faults if and only if the frame in progress, with its length arrived, ends beyond the 32-bit index range of the buffer |
| RpcWorld.NoFaultInRange | src/coder/tinypb_coder.cpp:47-60 | no run faults whose read events leave room for two frames of the largest size |
| RpcWorld.Quiescence | src/rpc/rpc_channel.cpp:87-129 | in every reachable state with nothing queued, on its way or waiting to be served, every pushed call has been handed its own response, and its closure has run with it exactly once unless the timeout came first or the payload does not parse |
| RpcWorld.CanComplete | src/net/TcpServer.cpp:157-170 | from every reachable state with both sides up, if the responses fit their frames, the run can go on without a fault to a quiet state, in which every pushed call is complete |
| RpcWorld.CallGetsItsResult | src/rpc/rpc_dispatcher.cpp:5-91 | a call of a registered method through the whole system: its reply is what the method made of its payload with code 0, its closure sees that or code 10000007, and certainly that once all is quiet and the timer has not fired |
| RpcWorld.CallCompletes | src/rpc/rpc_channel.cpp:87-129 | every request that fits, with a response that fits and parses, can be called so that its closure runs with the response |
| TimerQueue.InsertElements | src/net/TIme.cpp:41 | adding an entry keeps all others |
| TimerRuns.InsertBehindEquals | src/net/TIme.cpp:41 | a new entry goes in at one place: behind all that are earlier or as early, in front of all that are later |
| TimerRuns.AddKeeps | src/net/TIme.cpp:23-48 | order, keys and uniqueness are kept, and the event stands behind all that are not later; the timer stays armed in time if and only if the new event lies in the future or another comes first |
| TimerRuns.DueEventIsLate | src/net/TIme.cpp:141-179 | an event already due that comes first leaves the timer armed a whole default timeout later |
| TimerRuns.DeleteKeeps | src/net/TIme.cpp:50-76 | exactly the event's entry goes, the others keep their order, the event is marked cancelled, and the timer keeps its time, no later than the first of the rest |
| TimerRuns.OnTimeFires | src/net/TIme.cpp:78-139 | one timer event fires exactly the due events that are not cancelled, each once, in order of arrival, and those with the same arrival in the order in which they wait; exactly the due entries leave, repeated ones come back once under their new arrival, in the order in which they fired where the intervals agree; the timer is armed for the first entry, and for none keeps its time unless that has passed |
| TimerRuns.RunKeepsGood | src/net/TIme.cpp:23-139 | additions of new events and of events that have fired or were deleted, cancellations, deletions and timer events in any order, at any times that do not go back, keep order, arming and the firing count |
| TimerRuns.NeverLeftUnserved | src/net/TIme.cpp:23-179 | in every reachable state with pending events the timer is armed at or before the first arrival, keys equal arrival times, and a one-shot event has fired at most once for each time it was added, the last not counting while it waits |
| TimerRuns.CancelledNeverFires | src/net/TIme.cpp:97-116 | an event cancelled before collection never fires, however the run goes on |
| TimerRuns.DeletedNeverFires | src/net/TIme.cpp:50-76 | a deleted event never fires again, however the run goes on |
| TimerRuns.AddedEventFires | src/net/TIme.cpp:23-139 | from every state an added event that is not cancelled fires, once, when the timer is served at or after its arrival |
| Times.Time.constructor | src/net/TIme.cpp:5-20 | a new timer is empty and expires once after the default timeout |
| Times.Time.ResetArriveTime | src/net/TIme.cpp:141-179 | the arming rule, including the empty queue that leaves the timer alone |
| Times.Time.AddTimerEvent | src/net/TIme.cpp:23-48 | the object's queue and timer change as `AddKeeps` describes |
| Times.Time.FindEntry | src/net/TIme.cpp:57-67 | the scan of the entries with the event's arrival time stops at the event's entry or behind them |
| Times.Time.DeleteTimerEvent | src/net/TIme.cpp:50-76 | the object's queue changes as `DeleteKeeps` describes and the event is cancelled |
| Times.Time.OnTime | src/net/TIme.cpp:78-139 | the collection, re-adding and arming loops do what `OnTimeFires` describes, and the callbacks run are those of the events fired |
| ServerNodes.KeyIsInjective | src/common/ServerNode.h:17-19 | the key of a node determines its ip and port |
| ServerNodes.ServerNodeManager.constructor | src/common/ServerNode.h:36-46 | a new index is empty |
| ServerNodes.ServerNodeManager.RemoveNodeInternal | src/common/ServerNode.h:106-115 | the map loses exactly the key, its heap entry turns stale, and removal counts are kept |
| ServerNodes.ServerNodeManager.RebuildHeap | src/common/ServerNode.h:118-129 | the heap holds exactly the live nodes, each once; the dropped entries and the rebuild are accounted for |
| ServerNodes.ServerNodeManager.UpsertNode | src/common/ServerNode.h:50-68 | the map it stands for gains or replaces exactly this node; afterwards the heap has at most 99 entries more than the map; removals = popped + dropped + still stale, with at most one rebuild per 100 removals |
| ServerNodes.ServerNodeManager.RemoveNode | src/common/ServerNode.h:92-96 | the map it stands for loses exactly this key, and the result says whether it was there |
| ServerNodes.ServerNodeManager.GetLowestCPUNode | src/common/ServerNode.h:71-89 | null if and only if the map is empty, otherwise a node that is itself in the map with least load of all; the map does not change, stale entries of equal keys notwithstanding |
| EventLoops.EveryInterleaving | src/net/EventLoop.cpp:74-104 | in every interleaving of producers and handler, work that waits has a readable eventfd, a producer about to signal, or a handler on its way; what ran is a prefix of what was pushed |
| EventLoops.EffectiveStepsAreBounded | src/net/EventLoop.cpp:74-104 | without further pushes only a bounded number of steps can still have an effect |
| EventLoops.EverythingRuns | src/net/EventLoop.cpp:74-104 | from any reachable state, once pushes stop, every order of the remaining steps ends with everything pushed having run exactly once in push order |
| EventLoops.PushJoinsQueue | src/net/EventLoop.cpp:74-87 | a push is refused only while the handler holds the lock or to a producer that still owes its signal; it joins the end of the queue, and the signal makes the eventfd readable |
| EventLoops.EventLoop.Wakeup | src/net/EventLoop.cpp:83-87 | the signal step, saturating at the counter's maximum |
| EventLoops.EventLoop.QueueInLoop | src/net/EventLoop.cpp:74-81 | a push followed by the producer's signal |
| EventLoops.EventLoop.RunInLoop | src/net/EventLoop.cpp:62-72 | on the loop's thread the work bypasses the queue, elsewhere it is queued |
| EventLoops.EventLoop.HandleWakeup | src/net/EventLoop.cpp:89-104 | a failed read does nothing; otherwise all queued work runs in order, by steps of the protocol |
| KeepAlives.MissesAreQuietRounds | src/net/TcpClient.cpp:120-141 | the count of misses is k exactly when the last k marks are round ends and before them there is nothing or a reply with the end of its round |
| KeepAlives.TcpClient.Lookup | src/net/TcpClient.cpp:151-157 | a connected server is always found: the check of its counter never fails |
| KeepAlives.TcpClient.HeartbeatReply | src/net/TcpClient.cpp:120-125 | the counter remains the number of misses, -1 within the replied round, between -1 and 2; the reply goes through a dangling reference if and only if the map node it was sent from has been erased, even if the server has a new one |
| KeepAlives.TcpClient.EndRoundFor | src/net/TcpClient.cpp:132-140 | the connection is erased if and only if the last three rounds were quiet and the round before them, if any, had a reply |
| KeepAlives.TcpClient.EndRound | src/net/TcpClient.cpp:130-141 | exactly those connections go whose third reply-free round in a row ends, and all others stay, whatever the order of the walk |
| MsgIds.SuccessorAddsOne | src/common/msg_id_util.cpp:19-30 | the next id is one more in value |
| MsgIds.CarryOver | src/common/msg_id_util.cpp:20-29 | adding one at the last digit that is not nine and zeroing behind it is the successor |
| MsgIds.EpochIsDistinct | src/common/msg_id_util.cpp:4-32 | within one seed epoch ids count up one by one and are pairwise distinct |
| MsgIds.MsgIdUtil.GetMsgId | src/common/msg_id_util.cpp:4-32 | ten digits always; the seed at first and after the last id, the successor otherwise; the ids issued since the last seeding are the epoch of that seed, of which `EpochIsDistinct` speaks |
| MsgIds.MsgIdUtil.ScanNines | src/common/msg_id_util.cpp:20-23 | the backward scan stops at a digit before running off the left end |
| MsgIds.MsgIdUtil.Carry | src/common/msg_id_util.cpp:24-29 | exactly one digit goes up and those behind it become zero |
| Decimal.ParseOfText | src/common/RpcServerList.cpp:127 | `stoi` of `to_string` is the identity on 32-bit integers |
| Decimal.ValueIsPositional | src/common/RpcServerList.cpp:127 | digits in front weigh more, by ten for every digit behind them |
| Decimal.NoLeadingZero | src/common/ServerNode.h:17-19 | no decimal text of more than one digit starts with a zero |
| Decimal.ParseOfPieces | src/common/RpcServerList.cpp:127 | `stoi` skips white space, takes a sign, reads the digits and ignores what follows; without a digit or outside 32 bits it throws |
| Registry.Split | src/common/RpcServerList.cpp:69-75 | the `getline` loop yields the non-empty parts in order |
| Registry.PartsOfJoin | src/common/RpcServerList.cpp:69-75 | the parts of two texts joined by the separator are the parts of each |
| Registry.ParseUkv | src/common/RpcServerList.cpp:61-136 | the three splitting stages with their size checks compute the reading that `RegistrationRoundTrip` is about, early returns with unset variables and exceptions included |
| Registry.EmptyValue | src/common/RpcServerList.cpp:89-111 | an entry with an empty value yields its service and an empty ip, whatever the key |
| Registry.SampleEntry | src/rpc/rpc_dispatcher.cpp:98-99 | the key and the value of a registration, character by character |
| Registry.NumbersMustParse | src/common/RpcServerList.cpp:89-130 | an entry of the right shape is read completely if load and port parse, and throws otherwise |
| Registry.WholeAddress | src/common/RpcServerList.cpp:113-135 | an address that is not two parts is kept whole and the port stays unset |
| Registry.WrongNumberOfParts | src/common/RpcServerList.cpp:100-111 | a value of one part or of three leaves load, address and port unset |
| Registry.ShortKey | src/common/RpcServerList.cpp:77-87 | a key of one part leaves everything unset |
| Registry.RegistrationRoundTrip | src/rpc/rpc_dispatcher.cpp:98-99 | reading back a registered entry always recovers ip, port and load, and the service if and only if the base directory has one component or the part in its place coincides |
| Registry.DeepBaseDirectoryHidesService | src/common/RpcServerList.cpp:77-82 | under a base directory of two components the second is taken for the service |
| RpcServerLists.RpcServerList.OnEvent | src/common/RpcServerList.cpp:22-59 | every event, whatever its entry, changes the list exactly as it changes a plain map of live servers; it throws exactly if a number does not parse |
| RpcServerLists.RpcServerList.OnEvents | src/common/RpcDiscovery.h:43-65 | a notification applies its events in order, up to the first that throws |
| RpcServerLists.RpcServerList.Upsert | src/common/RpcServerList.cpp:31-36 | the service's map gains exactly this server, and no other service changes |
| RpcServerLists.RpcServerList.Remove | src/common/RpcServerList.cpp:48-57 | the service's map loses exactly this server, and no other service changes |
| RpcServerLists.RpcServerList.GetServerAddr | src/common/RpcServerList.cpp:10-20 | the address of a live server of least load by the plain map; empty address and -1 for a service never seen; a null dereference exactly if all servers of a known service are gone |
| RpcServerLists.EventIsUnderstood | src/rpc/rpc_dispatcher.cpp:93-106 | under a base directory of one component the event of a registration upserts exactly that server under exactly its service, and that of its deletion removes it, unless it comes without a value |
| RpcServerLists.ViewIsCluster | src/common/RpcServerList.cpp:22-136 | after any sequence of servers coming up and going down the list holds exactly the servers that are up by the events with values, each under its service with its last load |
| RpcServerLists.LookupInCluster | src/common/RpcServerList.cpp:10-20 | a lookup after any such sequence answers with a least loaded server of the service, whenever it has one; without one it dereferences null if and only if a server of it was ever up, and otherwise answers with no address |
| RpcServerLists.GoneServerIsKept | src/common/RpcServerList.cpp:39-59 | a server reported down leaves the list if and only if the event holds its value |

## Left out

- TinyPBCoder.Decode: the buffer's assertions are taken to be on, and a failed one ends the process; what a build without them reads is not part of this model.
- TinyPBCoder.Encode: messages are values; that the fallback id also becomes visible through other pointers to the same message is modelled by returning the messages with their ids.
- Buffers.Buffer.ReadFd: a read is an environment choice of bytes, end of file, EAGAIN or EINTR; other errors make the read and write loops spin and are excluded, as is a write that takes nothing forever.
- Connections.Connection.OnMessage: bytes read just before end of file are not parsed by the source; the stream theorems are about connections that are not closed. A read that would move the end of the window beyond the 32-bit limit is excluded here; `TcpServers.Serve` shows how the bound on the array keeps clear of it, and `TinyPBCoder.Decode` what a call would do, up to 2^32 bytes.
- Connections.Connection.SendMessage: write interest is proved for servers only; on the client a request pushed by another thread during a write event can be left without it.
- RpcWorld.EndToEnd: ids are distinct among calls and heartbeats of the connection, as within one seed epoch; after a reseed the source may issue an id again. A request or response whose frame is longer than 2^31-1 bytes is not sent: its length fields would be wrong.
- RpcTimers.DeadlineServesCall: a timer period is positive; that the loop serves a descriptor that is due is the kernel's part.
- RpcWorld.PlayKeepsGood: the steps are atomic, which the shared loop of a connection and its timers justifies; adding the timer and pushing the request are separate steps of the calling thread.
- RpcChannels.RpcChannel.CallMethod: one record per call; a second call on the same channel gives it a second timer while the first keeps running, and the record follows the newer one. Each call has a controller that is not shared with another, as constructed. The lookup of the connection is outside, and protobuf messages are their bytes.
- TimerRuns.NeverLeftUnserved: timer operations do not overlap in time, each reads the clock once, an event is added with an arrival in the future (`AddKeeps` covers the rest) and while it does not wait already, and no cancellation is taken back.
- Times.Time.AddTimerEvent: `std::multimap` is its contract, a sorted sequence in which equal keys keep their order of insertion.
- ServerNodes.ServerNodeManager.Top: `std::priority_queue` is its contract, some element of least load on top; loads are real numbers.
- EventLoops.EverythingRuns: a stopped loop leaves its queue; runs are without `stop`. Work that queues more work from inside the handler would wait for its own lock and does not occur.
- KeepAlives.TcpClient.HeartbeatReply: what the write through a dangling reference does; sending and withdrawing heartbeats is part of `RpcClient`.
- Registry.ParseUkv: `stod` and the text of a load are an arbitrary reversible pair; loads are real numbers.
- RpcServerLists.ViewIsCluster: the first listing of the directory is a sequence of puts like any other; the result of `getServerAddr` is the map's, not that of a connection attempt.
- Sockets, epoll, eventfd, timerfd and etcd calls, logging, configuration, the thread pool, raw pointer lifetimes, `CpuUsage`, the generated protobuf code, the demo programs and the echo server.
- `appendInt16` and `readInt16`, which nothing uses; the check sum, which is carried and never compared.
